/** `huft_build` as its callers see it, stated against the canonical code of RFC 1951. */
module Huffman {
  import opened Bits
  import opened Runs
  import opened Canonical
  import opened HuftTable
  import opened HuftWidth
  import opened HuftCode
  import opened HuftFrontier
  import opened HuftMake

  /** The extra-bits lists of the callers hold 0..14, or 99 for an invalid symbol. */
  predicate ExtraList(e: seq<nat>) {
    forall i :: 0 <= i < |e| ==> e[i] <= 14 || e[i] == 99
  }

  /** A look-up on the stream `x` ended at `f`, as it should: at the entry of the symbol whose
      code starts `x`, after exactly the bits of that code; or at an "invalid code" entry if
      no symbol's code starts `x`.  It never asks for more bits than the longest code has,
      and for end of block (256) it asks for no bit beyond that code. */
  ghost predicate Resolves(b: seq<nat>, s: nat, d: seq<nat>, e: seq<nat>, x: nat, f: Found) {
    var k := f.dropped + f.ent.b;
    && !f.ent.Link()
    && 0 < k <= f.asked <= MaxLen(b)
    && (forall sym: nat :: Starts(b, sym, x) ==>
          && b[sym] == k && f.ent.e == SymbolE(s, e, sym) && f.ent.n == SymbolN(s, d, sym)
          && (sym == 256 ==> f.asked == k))
    && (!Assigned(b, x) ==> f.ent.e == 99)
    && (Lone(b) ==> forall sym: nat :: sym < |b| && b[sym] == 1 ==> f.ent.n == SymbolN(s, d, sym))
  }

  /** A code with a single symbol, of one bit. */
  ghost predicate Lone(b: seq<nat>) {
    MaxLen(b) == 1 && Count(b, 1) == 1
  }

  /** Every link leads to a later table of the size it says. */
  ghost predicate WellLinked(t: seq<seq<Huft>>, bl: nat) {
    && |t| > 0 && |t[0]| == Pow2(bl)
    && forall id, j :: 0 <= id < |t| && 0 <= j < |t[id]| && t[id][j].Link() ==>
         LinkTo(t, id, t[id][j])
  }

  ghost predicate LinkTo(t: seq<seq<Huft>>, id: nat, ent: Huft)
    requires id < |t|
  {
    id < ent.t < |t| && 16 < ent.e <= 32 && |t[ent.t]| == Pow2(ent.e - 16) && |t[id]| == Pow2(ent.b)
  }

  /** Tables that decode the canonical code with lengths `b`. */
  ghost predicate Decoder(b: seq<nat>, s: nat, d: seq<nat>, e: seq<nat>, t: seq<seq<Huft>>, bl: nat) {
    && WellLinked(t, bl)
    && bl <= MaxLen(b) <= BMAX
    && forall x: nat :: Resolves(b, s, d, e, x, Walk(t, 0, bl, x))
  }

  /** Looking a symbol up in the tables asks for as many bits as the lengths and the limit `m` on
      table width say. */
  ghost predicate Asks(b: seq<nat>, m: nat, t: seq<seq<Huft>>, bl: nat) {
    forall x: nat, sym: nat :: Starts(b, sym, x) ==> Walk(t, 0, bl, x).asked == Asked(b, m, sym)
  }

  /** The stream `x` starts with the code of some symbol. */
  ghost predicate Assigned(b: seq<nat>, x: nat) {
    exists sym: nat :: Starts(b, sym, x)
  }

  /** Every bit stream starts with some code word. */
  ghost predicate Covers(b: seq<nat>) {
    forall x: nat :: Assigned(b, x)
  }

  // ----- the builder's counts and the canonical code

  /** The builder's view of the code agrees with the length list it came from. */
  ghost predicate Reflects(b: seq<nat>, cd: Code) {
    && cd.Valid()
    && Counted(b, cd.c, cd.g)
    && Count(b, cd.g) > 0
    && |cd.v| == Offset(cd.c, cd.g) + Count(b, cd.g)
    && Sorted(b, cd.c, cd.v, cd.g, |b|)
  }

  lemma {:induction false} FirstIs(b: seq<nat>, c: seq<nat>, g: nat, k: nat)
    requires Counted(b, c, g) && k <= g
    ensures First(c, k) == FirstCode(b, k)
    decreases k
  {
    if k > 1 {
      FirstIs(b, c, g, k - 1);
    }
  }

  lemma FirstApart(c: seq<nat>, k: nat, m: nat, x: nat)
    requires 1 <= k && 0 < m && k + m < |c|
    requires Rev(k, x) < First(c, k) + c[k]
    ensures Rev(k + m, x) < First(c, k + m)
  {
    assert First(c, k + m) == 2 * (First(c, k + m - 1) + c[k + m - 1]);
    assert Pow2(m) == 2 * Pow2(m - 1);
    hide First, Pow2, Rev;
    FirstUp(c, k, m - 1);
    RevSplit(k, m, x);
    var a := First(c, k) + c[k];
    MulMono(Rev(k, x) + 1, a, Pow2(m));
    Distribute(Rev(k, x), 1, Pow2(m));
    MulDouble(a, Pow2(m - 1));
  }

  /** A symbol whose code starts `x` has a length and a rank among the builder's codes. */
  lemma SymbolRank(b: seq<nat>, cd: Code, x: nat, sym: nat)
    requires Reflects(b, cd) && Starts(b, sym, x)
    ensures 1 <= b[sym] <= cd.g
    ensures Rev(b[sym], x) == First(cd.c, b[sym]) + Count(b[..sym], b[sym])
    ensures Count(b[..sym], b[sym]) < Count(b, b[sym]) <= cd.c[b[sym]]
  {
    FirstIs(b, cd.c, cd.g, b[sym]);
    CountPrefix(b, sym, b[sym]);
  }

  lemma EntryReal(b: seq<nat>, cd: Code, x: nat, k: nat)
    requires Reflects(b, cd) && 1 <= k <= cd.g
    requires First(cd.c, k) <= Rev(k, x) < First(cd.c, k) + cd.c[k]
    requires Offset(cd.c, k) + (Rev(k, x) - First(cd.c, k)) < |cd.v|
    ensures var sym := cd.v[Offset(cd.c, k) + (Rev(k, x) - First(cd.c, k))];
            Starts(b, sym, x) && b[sym] == k
  {
    hide First, Pow2, Rev, Offset;
    var r := Rev(k, x) - First(cd.c, k);
    assert b[..|b|] == b;
    assert r < Count(b, k);
    assert SortedAt(b, cd.c, cd.v, k, r, |b|);
    FirstIs(b, cd.c, cd.g, k);
  }

  lemma EntryFiller(b: seq<nat>, cd: Code, x: nat, k: nat, sym: nat)
    requires Reflects(b, cd) && 1 <= k <= cd.g
    requires First(cd.c, k) <= Rev(k, x) < First(cd.c, k) + cd.c[k]
    requires Offset(cd.c, k) + (Rev(k, x) - First(cd.c, k)) >= |cd.v|
    ensures !Starts(b, sym, x)
  {
    hide First, Pow2, Rev, Offset, Count, FirstCode, Sorted;
    if k < cd.g {
      OffsetMono(cd.c, k, cd.g);
    }
    if Starts(b, sym, x) {
      SymbolRank(b, cd, x, sym);
      if b[sym] < k {
        FirstApart(cd.c, b[sym], k - b[sym], x);
      }
    }
  }

  // ----- the theorem about the tables

  lemma LinksOf(cd: Code, el: nat, t: seq<seq<Huft>>, metas: seq<Meta>)
    requires cd.Valid() && Complete(cd, el, t, metas)
    ensures WellLinked(t, metas[0].l)
  {
    forall id: nat, j: nat | id < |t| && j < |t[id]| && t[id][j].Link()
      ensures LinkTo(t, id, t[id][j])
    {
      assert SlotOK(cd, metas, id, j, t[id][j]);
      assert MetaOK(cd, el, metas[t[id][j].t]) && MetaOK(cd, el, metas[id]);
    }
    assert MetaOK(cd, el, metas[0]);
  }

  lemma MaxLenIs(b: seq<nat>, cd: Code)
    requires Reflects(b, cd)
    ensures MaxLen(b) == cd.g
  {
    if MaxLen(b) < cd.g {
      CountNone(b, cd.g);
    }
  }

  lemma {:induction false} CountNone(b: seq<nat>, k: nat)
    requires forall i :: 0 <= i < |b| ==> b[i] != k
    ensures Count(b, k) == 0
  {
    if b != [] {
      CountNone(b[..|b| - 1], k);
    }
  }

  lemma RealResolves(b: seq<nat>, cd: Code, x: nat, f: Found, sym: nat)
    requires Starts(b, sym, x) && b[sym] == f.dropped + f.ent.b <= f.asked <= MaxLen(b) && !f.ent.Link()
    requires f.ent.e == cd.EntryE(sym) && f.ent.n == cd.EntryN(sym)
    requires sym == 256 ==> f.asked == b[sym]
    ensures Resolves(b, cd.s, cd.d, cd.e, x, f)
  {
    assert Assigned(b, x);
    forall sym': nat | Starts(b, sym', x) ensures sym' == sym {
      PrefixFree(b, sym, sym', x);
    }
    if Lone(b) {
      forall sym': nat | sym' < |b| && b[sym'] == 1 ensures sym' == sym {
        LoneUnique(b, sym, sym');
      }
    }
  }

  lemma FillerResolves(b: seq<nat>, cd: Code, x: nat, f: Found)
    requires Reflects(b, cd) && 0 < f.dropped + f.ent.b <= f.asked <= MaxLen(b)
    requires forall sym: nat :: !Starts(b, sym, x)
    requires f.ent.e == 99 && (cd.g == 1 ==> f.ent.n == cd.EntryN(cd.v[|cd.v| - 1]))
    ensures Resolves(b, cd.s, cd.d, cd.e, x, f)
  {
    MaxLenIs(b, cd);
    if Lone(b) {
      LoneValue(b, cd);
      forall sym: nat | sym < |b| && b[sym] == 1 ensures sym == cd.v[0] {
        LoneUnique(b, cd.v[0], sym);
      }
    }
  }

  /** What a walk delivers in the builder's terms is what a look-up owes its caller. */
  lemma ResolvesIntro(b: seq<nat>, cd: Code, el: nat, x: nat, f: Found)
    requires Reflects(b, cd) && Delivers(cd, el, 0, x, f)
    requires el == if |b| > 256 then b[256] else BMAX
    ensures Resolves(b, cd.s, cd.d, cd.e, x, f)
  {
    hide First, Pow2, Rev, Offset, Count, FirstCode, Sorted, Counted, Starts, SymbolE, SymbolN, MaxLen;
    var k := f.dropped + f.ent.b;
    var r := Rev(k, x) - First(cd.c, k);
    MaxLenIs(b, cd);
    if Offset(cd.c, k) + r < |cd.v| {
      var sym := cd.v[Offset(cd.c, k) + r];
      EntryReal(b, cd, x, k);
      StartsIn(b, sym, x);
      RealResolves(b, cd, x, f, sym);
    } else {
      forall sym: nat ensures !Starts(b, sym, x) {
        EntryFiller(b, cd, x, k, sym);
      }
      FillerResolves(b, cd, x, f);
    }
  }

  lemma StartsIn(b: seq<nat>, sym: nat, x: nat)
    requires Starts(b, sym, x)
    ensures sym < |b|
  {
  }

  lemma LoneUnique(b: seq<nat>, s: nat, t: nat)
    requires Lone(b) && s < |b| && t < |b| && b[s] == 1 && b[t] == 1
    ensures s == t
  {
    CountPrefix(b, s, 1);
    CountPrefix(b, t, 1);
    if s < t {
      RankUnique(b, s, t);
    } else if t < s {
      RankUnique(b, t, s);
    }
  }

  lemma LoneValue(b: seq<nat>, cd: Code)
    requires Reflects(b, cd) && Lone(b)
    ensures |cd.v| == 1 && cd.v[0] < |b| && b[cd.v[0]] == 1
  {
    MaxLenIs(b, cd);
    assert b[..|b|] == b;
    assert SortedAt(b, cd.c, cd.v, 1, 0, |b|);
  }

  // ----- the Kraft sum

  /** The Kraft sum taken length by length. */
  function Weight(b: seq<nat>, k: nat): nat
    requires k <= 16
  {
    if k == 0 then 0 else Weight(b, k - 1) + Count(b, k) * Pow2(16 - k)
  }

  lemma {:induction false} WeightStep(b: seq<nat>, k: nat)
    requires k <= 16 && b != []
    ensures Weight(b, k) == Weight(b[..|b| - 1], k) + (if 1 <= b[|b| - 1] <= k then Pow2(16 - b[|b| - 1]) else 0)
    decreases k
  {
    if k > 0 {
      WeightStep(b, k - 1);
      Distribute(Count(b[..|b| - 1], k), 1, Pow2(16 - k));
    }
  }

  lemma {:induction false} WeightNil(k: nat)
    requires k <= 16
    ensures Weight([], k) == 0
  {
    if k > 0 {
      WeightNil(k - 1);
    }
  }

  lemma {:induction false} KraftIsWeight(b: seq<nat>)
    ensures Kraft(b) == Weight(b, 16)
    decreases |b|
  {
    hide Weight;
    if b == [] {
      WeightNil(16);
    } else {
      KraftIsWeight(b[..|b| - 1]);
      WeightStep(b, 16);
    }
  }

  lemma {:induction false} WeightFlat(b: seq<nat>, g: nat, k: nat)
    requires g <= k <= 16 && forall j :: g < j <= k ==> Count(b, j) == 0
    ensures Weight(b, k) == Weight(b, g)
    decreases k
  {
    if g < k {
      WeightFlat(b, g, k - 1);
    }
  }

  lemma {:induction false} WeightIsFirst(b: seq<nat>, c: seq<nat>, k: nat)
    requires |c| == 17 && 1 <= k <= 16 && forall j :: 1 <= j <= k ==> c[j] == Count(b, j)
    ensures Weight(b, k) == (First(c, k) + c[k]) * Pow2(16 - k)
    decreases k
  {
    assert Weight(b, k) == Weight(b, k - 1) + c[k] * Pow2(16 - k);
    if k > 1 {
      WeightIsFirst(b, c, k - 1);
      var a := First(c, k - 1) + c[k - 1];
      assert First(c, k) == 2 * a;
      assert Pow2(16 - (k - 1)) == 2 * Pow2(16 - k);
      hide Weight, First, Pow2, Count;
      MulAssoc(a, 2, Pow2(16 - k));
      Distribute(2 * a, c[k], Pow2(16 - k));
    } else {
      assert Weight(b, 0) == 0;
    }
  }

  /** A run of equal lengths adds that many code words to the Kraft sum. */
  lemma {:induction false} KraftRun(l: seq<nat>, k: nat, n: nat)
    requires 0 < k <= 16
    ensures Kraft(l + Repeat(k, n)) == Kraft(l) + n * Pow2(16 - k)
    ensures MaxLen(l + Repeat(k, n)) == if n > 0 && MaxLen(l) < k then k else MaxLen(l)
    decreases n
  {
    var m := l + Repeat(k, n);
    if n > 0 {
      var front := l + Repeat(k, n - 1);
      assert m == front + [k];
      assert m[..|m| - 1] == front;
      KraftRun(l, k, n - 1);
      Distribute(n - 1, 1, Pow2(16 - k));
    } else {
      assert m == l;
    }
  }

  /** The Kraft sum against one is the last code word against the end of the code space. */
  lemma KraftIs(b: seq<nat>, c: seq<nat>, g: nat)
    requires |c| == 17 && 1 <= g <= 16 && (forall j :: 1 <= j <= 16 ==> c[j] == Count(b, j))
    requires forall j :: g < j <= 16 ==> c[j] == 0
    ensures Kraft(b) < Pow2(16) <==> First(c, g) + c[g] < Pow2(g)
    ensures Kraft(b) > Pow2(16) <==> First(c, g) + c[g] > Pow2(g)
  {
    hide *;
    KraftIsWeight(b);
    WeightFlat(b, g, 16);
    WeightIsFirst(b, c, g);
    Pow2Add(g, 16 - g);
    Scale(First(c, g) + c[g], Pow2(g), Pow2(16 - g));
  }

  lemma Scale(a: int, b: int, d: int)
    requires 0 < d
    ensures a * d < b * d <==> a < b
    ensures a * d > b * d <==> a > b
  {
    if a < b {
      MulMono(a + 1, b, d);
    } else if b < a {
      MulMono(b + 1, a, d);
    }
  }

  /** A complete code leaves no bit stream without a symbol. */
  lemma CoversIntro(b: seq<nat>, cd: Code, el: nat, t: seq<seq<Huft>>, metas: seq<Meta>)
    requires Reflects(b, cd) && Complete(cd, el, t, metas) && |cd.v| == Offset(cd.c, cd.g) + cd.c[cd.g]
    ensures Covers(b)
  {
    forall x: nat
      ensures Assigned(b, x)
    {
      WalkRoot(cd, el, t, metas, x);
      var f := Walk(t, 0, metas[0].l, x);
      var k := f.dropped + f.ent.b;
      if k < cd.g {
        OffsetMono(cd.c, k, cd.g);
      }
      EntryReal(b, cd, x, k);
    }
  }

  lemma DecoderIntro(b: seq<nat>, cd: Code, el: nat, m: nat, t: seq<seq<Huft>>, metas: seq<Meta>, bl: nat)
    requires Reflects(b, cd) && Built(cd, el, m, t, metas, bl)
    requires el == if |b| > 256 then b[256] else BMAX
    ensures Decoder(b, cd.s, cd.d, cd.e, t, bl)
  {
    LinksOf(cd, el, t, metas);
    MaxLenIs(b, cd);
    assert MetaOK(cd, el, metas[0]);
    forall x: nat
      ensures Resolves(b, cd.s, cd.d, cd.e, x, Walk(t, 0, bl, x))
    {
      WalkFrom(cd, el, t, metas, 0, x);
      ResolvesIntro(b, cd, el, x, Walk(t, 0, bl, x));
    }
  }

  /** The builder has worked on the padded counts, with the bounded limit. */
  ghost predicate Bounded(b: seq<nat>, m: nat, cd: Code, el: nat, m': nat) {
    cd.c == Padded(b) && cd.g == MaxLen(b) && el == EndLen(b) && m' == Limit(b, m)
  }

  lemma AsksIntro(b: seq<nat>, m: nat, cd: Code, el: nat, m': nat, t: seq<seq<Huft>>, metas: seq<Meta>, bl: nat)
    requires Reflects(b, cd) && Built(cd, el, m', t, metas, bl) && Bounded(b, m, cd, el, m')
    requires Decoder(b, cd.s, cd.d, cd.e, t, bl)
    ensures Asks(b, m, t, bl)
  {
    forall x: nat, sym: nat | Starts(b, sym, x) ensures Walk(t, 0, bl, x).asked == Asked(b, m, sym) {
      AsksOne(b, m, cd, el, m', t, metas, bl, x, sym);
    }
  }

  lemma AsksOne(b: seq<nat>, m: nat, cd: Code, el: nat, m': nat, t: seq<seq<Huft>>, metas: seq<Meta>, bl: nat, x: nat, sym: nat)
    requires Reflects(b, cd) && Built(cd, el, m', t, metas, bl) && Bounded(b, m, cd, el, m')
    requires Decoder(b, cd.s, cd.d, cd.e, t, bl) && Starts(b, sym, x)
    ensures sym < |b| && Walk(t, 0, bl, x).asked == Asked(b, m, sym)
  {
    hide First, Pow2, Rev, Offset, Count, FirstCode, Sorted, Counted, SymbolE, SymbolN, MaxLen, Complete, AskedFrom;
    hide CodeOf, Padded, Limit, EndLen, WidthOK, Walk, Low, Shr, Lone;
    var f := Walk(t, 0, bl, x);
    assert Resolves(b, cd.s, cd.d, cd.e, x, f);
    FirstMeta(cd, el, t, metas, x);
    WalkAsked(cd, el, m', t, metas, 0, x);
  }

  lemma FirstMeta(cd: Code, el: nat, t: seq<seq<Huft>>, metas: seq<Meta>, x: nat)
    requires cd.Valid() && Complete(cd, el, t, metas)
    ensures |metas| > 0 && metas[0].w == 0 && metas[0].pr == 0 == Low(0, x) && Shr(x, 0) == x
  {
    assert MetaOK(cd, el, metas[0]);
  }

  lemma BoundedIntro(b: seq<nat>, m: nat, c0: seq<nat>, j: nat, g: nat, y: nat, cd: Code, el: nat, m': nat)
    requires Reflects(b, cd) && |c0| == 17 && (forall k :: 0 <= k <= 16 ==> c0[k] == Count(b, k))
    requires 1 <= j <= g <= 16 && MaxLen(b) == g && c0[j] > 0 && forall k :: 1 <= k < j ==> c0[k] == 0
    requires First(c0, g) + c0[g] + y == Pow2(g) && cd.c == c0[g := c0[g] + y] && cd.g == g
    requires el == if |b| > 256 then b[256] else BMAX
    requires m' == if m < j then j else if m > g then g else m
    ensures Bounded(b, m, cd, el, m')
  {
    hide Sorted, Offset, Count, First, FirstCode, Pow2;
    FirstIs(b, cd.c, g, g);
    FirstSame(c0, cd.c, g);
    assert forall i: nat :: 1 <= i < j ==> Count(b, i) == c0[i];
    ShortestIs(b, 1, j);
    assert forall k :: 0 <= k < 17 ==> cd.c[k] == Padded(b)[k];
  }

  // ----- huft_build

  lemma {:induction false} CountZero(b: seq<nat>)
    ensures Count(b, 0) == |b| <==> MaxLen(b) == 0
    ensures MaxLen(b) > 0 ==> Count(b, MaxLen(b)) > 0
  {
    if b != [] {
      CountZero(b[..|b| - 1]);
    }
  }

  lemma CountBeyond(b: seq<nat>, k: nat)
    requires k > MaxLen(b)
    ensures Count(b, k) == 0
  {
    CountNone(b, k);
  }

  /** The longest length is the last one with a count. */
  lemma LongestIs(b: seq<nat>, c: seq<nat>, g: nat)
    requires Lengths(b) && |c| == 17 && (forall k :: 0 <= k <= 16 ==> c[k] == Count(b, k))
    requires 1 <= g <= 16 && c[g] > 0 && forall k :: g < k <= 16 ==> c[k] == 0
    ensures MaxLen(b) == g
  {
    CountZero(b);
    if MaxLen(b) < g {
      CountBeyond(b, g);
    }
  }

  /** The sign of a length list that `huft_build` returns: 2 for an oversubscribed code, 1 for
      an incomplete one, unless its longest code is a single bit, and 0 otherwise. */
  function KraftClass(b: seq<nat>): nat {
    if Kraft(b) > Pow2(16) then 2
    else if Kraft(b) < Pow2(16) && MaxLen(b) > 1 then 1
    else 0
  }

  /** The adjusted counts make a complete code that reflects the length list. */
  lemma ReflectsIntro(b: seq<nat>, c0: seq<nat>, g: nat, y: nat, cd: Code)
    requires Lengths(b) && |c0| == 17 && (forall k :: 0 <= k <= 16 ==> c0[k] == Count(b, k))
    requires 1 <= g <= 16 && MaxLen(b) == g && c0[g] > 0
    requires First(c0, g) + c0[g] + y == Pow2(g)
    requires cd.c == c0[g := c0[g] + y] && cd.g == g && ExtraList(cd.e)
    requires |cd.v| == Offset(cd.c, g) + Count(b, g) && Sorted(b, cd.c, cd.v, g, |b|)
    ensures Reflects(b, cd)
  {
    FirstSame(c0, cd.c, g);
  }

  lemma {:induction false} FirstSame(c: seq<nat>, c': seq<nat>, k: nat)
    requires |c| == |c'| && k <= |c| && forall j :: 0 <= j < k ==> c[j] == c'[j]
    ensures First(c, k) == First(c', k)
    decreases k
  {
    if k > 1 {
      FirstSame(c, c', k - 1);
    }
  }

  /** The rest of the work, once the code is known to need `y` dummy codes of `g` bits. */
  method BuildFrom(b: seq<nat>, s: nat, d: seq<nat>, e: seq<nat>, m: nat, el: nat,
                   c: array<nat>, j: nat, g: nat, y: nat, ghost m0: nat)
    returns (t: seq<seq<Huft>>, bl: nat)
    requires Lengths(b) && ExtraList(e) && c.Length == 17
    requires forall k :: 0 <= k <= 16 ==> c[k] == Count(b, k)
    requires 1 <= j <= g <= 16 && MaxLen(b) == g && c[g] > 0 && forall k :: 1 <= k < j ==> c[k] == 0
    requires First(c[..], g) + c[g] + y == Pow2(g)
    requires el == if |b| > 256 then b[256] else 16
    requires c[j] > 0 && m == if m0 < j then j else if m0 > g then g else m0
    modifies c
    ensures bl > 0 && Decoder(b, s, d, e, t, bl) && Asks(b, m0, t, bl)
    ensures m >= g && |b| <= 256 ==> |t| == 1 && bl == g
    ensures y == 0 ==> Covers(b)
  {
    assert BMAX == 16;
    hide *;
    ghost var c0 := c[..];
    c[g] := c[g] + y;
    CountedIntro(b, c0, g, c[..], y);
    var v := SortValues(b, c, g);
    var cd := Code(c[..], g, v, s, d, e);
    ReflectsIntro(b, c0, g, y, cd);
    ReflectsValid(b, cd);
    t, bl := BuildTables(cd, el, m, j);
    ghost var metas :| Built(cd, el, m, t, metas, bl);
    BuiltFacts(cd, el, m, t, metas, bl);
    DecoderIntro(b, cd, el, m, t, metas, bl);
    BoundedIntro(b, m0, c0, j, g, y, cd, el, m);
    AsksIntro(b, m0, cd, el, m, t, metas, bl);
    if y == 0 {
      CoversIntro(b, cd, el, t, metas);
    }
  }

  /** Given a list of code lengths and a maximum table size, make a set of tables to decode
      that set of codes.  The tables are made even if the code is incomplete.  For an
      oversubscribed code the source leaves the caller's table alone. */
  method HuftBuild(b: seq<nat>, s: nat, d: seq<nat>, e: seq<nat>, m: nat)
    returns (r: nat, t: seq<seq<Huft>>, bl: nat)
    requires Lengths(b) && ExtraList(e)
    ensures MaxLen(b) == 0 ==> r == 0 && t == [] && bl == 0
    ensures MaxLen(b) > 0 ==> r == KraftClass(b) && bl > 0
    ensures MaxLen(b) > 0 ==> r == if Kraft(b) > 65536 then 2 else if Kraft(b) < 65536 && MaxLen(b) > 1 then 1 else 0
    ensures MaxLen(b) > 0 && r != 2 ==> Decoder(b, s, d, e, t, bl)
    ensures MaxLen(b) > 0 && r != 2 ==> Asks(b, m, t, bl)
    ensures MaxLen(b) > 0 && r != 2 && MaxLen(b) <= m && |b| <= 256 ==> |t| == 1 && bl == MaxLen(b)
    ensures Kraft(b) == Pow2(16) ==> Covers(b)
  {
    assert BMAX == 16;
    hide *;
    var el := if |b| > 256 then b[256] else BMAX;
    var c := CountLengths(b);
    CountZero(b);
    if c[0] == |b| {
      KraftOfZero(b);
      return 0, [], 0;
    }
    ghost var c0 := c[..];
    SomeCount(b, c0);
    var j, g := MinMax(c);
    LongestIs(b, c0, g);
    KraftIs(b, c0, g);
    // Bound the table size by the minimum and maximum length.
    var m' := if m < j then j else m;
    m' := if m' > g then g else m';
    var y := FillOut(c, j, g);
    OverIs(c0, g);
    ClassIs(b);
    Sixteen();
    if y < 0 {
      return 2, [], m';
    }
    t, bl := BuildFrom(b, s, d, e, m', el, c, j, g, y, m);
    r := if y != 0 && g != 1 then 1 else 0;
  }

  lemma Sixteen()
    ensures Pow2(16) == 65536
  {
    assert Pow2(8) == 256;
    Pow2Add(8, 8);
  }

  lemma ReflectsValid(b: seq<nat>, cd: Code)
    requires Reflects(b, cd)
    ensures cd.Valid() && 1 <= cd.g <= 16
  {
  }

  lemma BuiltFacts(cd: Code, el: nat, m: nat, t: seq<seq<Huft>>, metas: seq<Meta>, bl: nat)
    requires Built(cd, el, m, t, metas, bl)
    ensures cd.Valid() && Complete(cd, el, t, metas) && bl > 0
    ensures m >= cd.g && (el == 0 || el >= cd.g) ==> |t| == 1 && bl == cd.g
  {
    assert MetaOK(cd, el, metas[0]);
  }

  lemma SomeCount(b: seq<nat>, c: seq<nat>)
    requires Lengths(b) && |c| == 17 && (forall k :: 0 <= k <= 16 ==> c[k] == Count(b, k))
    requires c[0] != |b|
    ensures exists k :: 1 <= k <= BMAX && c[k] > 0
  {
    CountZero(b);
    assert MaxLen(b) in b;
    assert c[MaxLen(b)] > 0;
  }

  lemma OverIs(c: seq<nat>, g: nat)
    requires 1 <= g < |c|
    ensures Oversubscribed(c, g) <==> Pow2(g) < First(c, g) + c[g]
  {
  }

  lemma ClassIs(b: seq<nat>)
    ensures KraftClass(b) == if Kraft(b) > Pow2(16) then 2 else if Kraft(b) < Pow2(16) && MaxLen(b) > 1 then 1 else 0
  {
  }

  lemma CountedIntro(b: seq<nat>, c0: seq<nat>, g: nat, c: seq<nat>, y: nat)
    requires Lengths(b) && |c0| == 17 && (forall k :: 0 <= k <= 16 ==> c0[k] == Count(b, k))
    requires 1 <= g <= 16 && MaxLen(b) == g && c == c0[g := c0[g] + y]
    ensures Counted(b, c, g)
  {
  }

  lemma KraftOfZero(b: seq<nat>)
    requires MaxLen(b) == 0
    ensures Kraft(b) == 0 < Pow2(16)
  {
    KraftIsWeight(b);
    forall k: nat | 1 <= k <= 16 ensures Count(b, k) == 0 {
      CountBeyond(b, k);
    }
    WeightFlat(b, 0, 16);
    assert Weight(b, 0) == 0;
  }
}
