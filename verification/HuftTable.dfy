/** The multi-level decoding tables of `huft_build`: what an entry is, what walking the
  tables does, and the invariant that ties every slot to one code word. */
module HuftTable {
  import opened Bits

  /** `struct huft`.  The source keeps `n` and `t` in one union; `t` is the index, in the
      arena of allocated tables, of the table a link leads to. */
  datatype Huft = Huft(e: nat, b: nat, n: nat, t: nat) {
    /** A link to a deeper table: 16 < e and e is not the "invalid code" mark 99. */
    predicate Link() { e > 16 && e != 99 }
  }

  /** First code of `k` bits, when there are `c[j]` codes of each length `j`. */
  function First(c: seq<nat>, k: nat): nat
    requires k <= |c|
  {
    if k <= 1 then 0 else 2 * (First(c, k - 1) + c[k - 1])
  }

  /** Number of codes shorter than `k` bits. */
  function Offset(c: seq<nat>, k: nat): nat
    requires k <= |c|
  {
    if k <= 1 then 0 else Offset(c, k - 1) + c[k - 1]
  }

  /** What an entry must say about its symbol: a literal (16) or end of block (15) carries the
      symbol itself, any other symbol its extra bits and base value from the two lists.
      The source reads past the end of a list that is too short; here such a symbol is
      marked invalid. */
  function SymbolE(s: nat, e: seq<nat>, sym: nat): nat {
    if sym < s then (if sym < 256 then 16 else 15)
    else if sym - s < |e| then e[sym - s] else 99
  }

  function SymbolN(s: nat, d: seq<nat>, sym: nat): nat {
    if sym < s then sym
    else if sym - s < |d| then d[sym - s] else 0
  }

  /** A complete code in the builder's own terms: `c[k]` codes of `k` bits (dummy codes
      included), `g` the longest length, `v` the real symbols in order of code length, and
      the three arguments that say what a symbol means. */
  datatype Code = Code(c: seq<nat>, g: nat, v: seq<nat>, s: nat, d: seq<nat>, e: seq<nat>) {

    ghost predicate Sized() { |c| == 17 && g <= 16 && 0 < |v| }

    ghost predicate Valid() {
      && Sized() && 1 <= g
      && c[g] > 0
      && First(c, g) + c[g] == Pow2(g)
      && Offset(c, g) < |v| <= Offset(c, g) + c[g]
      && forall i :: 0 <= i < |e| ==> e[i] <= 14 || e[i] == 99
    }

    function EntryE(sym: nat): nat { SymbolE(s, e, sym) }

    function EntryN(sym: nat): nat { SymbolN(s, d, sym) }

    /** The padding codes carry the mark 99.  Their value field is whatever the last entry
        left there; that is visible to a caller only when the longest code is one bit.
        `ent` is right for the code number `r` among the codes of `k` bits. */
    ghost predicate Means(ent: Huft, k: nat, r: int)
      requires Sized()
    {
      && 1 <= k <= g
      && 0 <= r < c[k]
      && if Offset(c, k) + r < |v|
         then ent.e == EntryE(v[Offset(c, k) + r]) && ent.n == EntryN(v[Offset(c, k) + r])
         else ent.e == 99 && (g == 1 ==> ent.n == EntryN(v[|v| - 1]))
    }

    /** `ent`, reached after `w` bits, is right for every stream that starts with `x`. */
    ghost predicate Decodes(ent: Huft, w: nat, x: nat)
      requires Sized()
    {
      var k := w + ent.b;
      && 0 < ent.b
      && 1 <= k <= g
      && Means(ent, k, Rev(k, x) - First(c, k))
    }
  }

  /** What is known of an allocated table: it is entered after `w` bits, on streams whose
      first `w` bits are `pr`, and is indexed by the next `l` bits. */
  datatype Meta = Meta(w: nat, pr: nat, l: nat)

  /** The stream bits that lead to slot `j` of a table. */
  function Pattern(m: Meta, j: nat): nat {
    m.pr + Pow2(m.w) * j
  }

  function Blank(): Huft { Huft(0, 0, 0, 0) }

  ghost predicate LinkOK(metas: seq<Meta>, id: nat, j: nat, ent: Huft)
    requires id < |metas|
  {
    var m := metas[id];
    && ent.Link()
    && ent.b == m.l
    && id < ent.t < |metas|
    && ent.e == 16 + metas[ent.t].l
    && metas[ent.t].w == m.w + m.l
    && metas[ent.t].pr == Pattern(m, j)
  }

  ghost predicate SlotOK(cd: Code, metas: seq<Meta>, id: nat, j: nat, ent: Huft)
    requires cd.Sized()
    requires id < |metas|
  {
    || LinkOK(metas, id, j, ent)
    || (ent.b <= metas[id].l && !ent.Link() && cd.Decodes(ent, metas[id].w, Pattern(metas[id], j)))
  }

  ghost predicate MetaOK(cd: Code, el: nat, m: Meta) {
    && 1 <= m.l && m.w + m.l <= cd.g
    && m.pr < Pow2(m.w)
    && (m.w < el ==> m.w + m.l <= el)
  }

  /** Every table has the right shape, and every slot written so far is right. */
  ghost predicate Shaped(cd: Code, el: nat, tables: seq<seq<Huft>>, metas: seq<Meta>)
    requires cd.Sized()
  {
    && |tables| == |metas|
    && (forall id :: 0 <= id < |metas| ==> MetaOK(cd, el, metas[id]))
    && (forall id :: 0 <= id < |metas| ==> |tables[id]| == Pow2(metas[id].l))
    && (|metas| > 0 ==> metas[0].w == 0)
    && forall id, j :: 0 <= id < |metas| && 0 <= j < |tables[id]| ==>
         tables[id][j].b == 0 || SlotOK(cd, metas, id, j, tables[id][j])
  }

  /** Finished tables: nothing is left unwritten. */
  ghost predicate Complete(cd: Code, el: nat, tables: seq<seq<Huft>>, metas: seq<Meta>)
    requires cd.Sized()
  {
    && Shaped(cd, el, tables, metas)
    && |tables| > 0
    && forall id, j :: 0 <= id < |metas| && 0 <= j < |tables[id]| ==> tables[id][j].b > 0
  }

  // ----- walking the tables

  /** The look-up loop of the decoders on stream bits `x`, entered at table `id` of width `l`:
      the entry it stops at, the bits dropped before that entry, and the bits it asked for. */
  datatype Found = Found(ent: Huft, dropped: nat, asked: nat)

  function Walk(tables: seq<seq<Huft>>, id: nat, l: nat, x: nat): Found
    decreases |tables| - id
  {
    if id < |tables| && Low(l, x) < |tables[id]| then
      var ent := tables[id][Low(l, x)];
      if ent.Link() && id < ent.t < |tables| then
        var f := Walk(tables, ent.t, ent.e - 16, Shr(x, ent.b));
        Found(f.ent, ent.b + f.dropped, ent.b + f.asked)
      else Found(ent, 0, l)
    else Found(Blank(), 0, l)
  }

  lemma PatternLow(w: nat, l: nat, x: nat, m: Meta)
    requires m.w == w && m.pr == Low(w, x)
    ensures Pattern(m, Low(l, Shr(x, w))) == Low(w + l, x)
  {
    LowSplit(w, l, x);
  }

  /** What a walk must deliver from a point `w` bits into the stream `x`. */
  ghost predicate Delivers(cd: Code, el: nat, w: nat, x: nat, f: Found)
    requires cd.Sized()
  {
    && cd.Decodes(f.ent, w + f.dropped, x)
    && !f.ent.Link()
    && f.dropped + f.ent.b <= f.asked
    && w + f.asked <= cd.g
    && (w < el && w + f.dropped + f.ent.b == el ==> w + f.asked == el)
  }

  /** Only the bits that an entry consumes matter to it. */
  lemma DecodesLow(cd: Code, ent: Huft, w: nat, n: nat, x: nat)
    requires cd.Sized() && cd.Decodes(ent, w, Low(n, x)) && w + ent.b <= n
    ensures cd.Decodes(ent, w, x)
  {
    RevLow(w + ent.b, n, x);
  }

  lemma SlotFacts(cd: Code, el: nat, tables: seq<seq<Huft>>, metas: seq<Meta>, id: nat, j: nat)
    requires cd.Valid() && Complete(cd, el, tables, metas) && id < |metas| && j < Pow2(metas[id].l)
    ensures |tables| == |metas| && MetaOK(cd, el, metas[id])
    ensures j < |tables[id]| && tables[id][j].b > 0
    ensures var ent, m := tables[id][j], metas[id];
            if ent.Link() then
              && id < ent.t < |metas| && ent.b == m.l && ent.e == 16 + metas[ent.t].l
              && metas[ent.t].w == m.w + m.l && metas[ent.t].pr == Pattern(m, j)
            else ent.b <= m.l && cd.Decodes(ent, m.w, Pattern(m, j))
  {
    assert SlotOK(cd, metas, id, j, tables[id][j]);
  }

  /** From any table on the path of `x`, the walk ends at an entry that is right for `x`. */
  lemma {:induction false} WalkFrom(cd: Code, el: nat, tables: seq<seq<Huft>>, metas: seq<Meta>, id: nat, x: nat)
    requires cd.Valid() && Complete(cd, el, tables, metas)
    requires id < |metas| && metas[id].pr == Low(metas[id].w, x)
    ensures Delivers(cd, el, metas[id].w, x, Walk(tables, id, metas[id].l, Shr(x, metas[id].w)))
    decreases |tables| - id
  {
    hide *;
    var m := metas[id];
    var j := Low(m.l, Shr(x, m.w));
    SlotFacts(cd, el, tables, metas, id, j);
    PatternLow(m.w, m.l, x, m);
    if tables[id][j].Link() {
      var t := tables[id][j].t;
      ShrShr(x, m.w, m.l);
      WalkFrom(cd, el, tables, metas, t, x);
      DeliversLink(cd, el, m, metas[t], x, Walk(tables, t, metas[t].l, Shr(x, metas[t].w)), tables[id][j]);
    } else {
      DeliversLeaf(cd, el, m, x, tables[id][j]);
    }
    WalkStep(tables, id, m.l, Shr(x, m.w));
  }

  /** One step of the look-up loop. */
  lemma WalkStep(tables: seq<seq<Huft>>, id: nat, l: nat, x: nat)
    requires id < |tables| && Low(l, x) < |tables[id]|
    ensures var ent := tables[id][Low(l, x)];
            && (!ent.Link() ==> Walk(tables, id, l, x) == Found(ent, 0, l))
            && (ent.Link() && id < ent.t < |tables| ==>
                  Walk(tables, id, l, x) == Behind(ent, Walk(tables, ent.t, ent.e - 16, Shr(x, ent.b))))
  {
  }

  /** What was found behind a link, as seen from the table that holds the link. */
  function Behind(ent: Huft, f: Found): Found {
    Found(f.ent, ent.b + f.dropped, ent.b + f.asked)
  }

  lemma DeliversLeaf(cd: Code, el: nat, m: Meta, x: nat, ent: Huft)
    requires cd.Valid() && MetaOK(cd, el, m) && 0 < ent.b <= m.l && !ent.Link()
    requires cd.Decodes(ent, m.w, Low(m.w + m.l, x))
    ensures Delivers(cd, el, m.w, x, Found(ent, 0, m.l))
  {
    hide Low, Shr, Rev, Pow2, First, Offset, Code.Means;
    DecodesLow(cd, ent, m.w, m.w + m.l, x);
  }

  lemma DeliversLink(cd: Code, el: nat, m: Meta, m': Meta, x: nat, f: Found, ent: Huft)
    requires cd.Valid() && MetaOK(cd, el, m) && m'.w == m.w + m.l && ent.b == m.l
    requires Delivers(cd, el, m'.w, x, f)
    ensures Delivers(cd, el, m.w, x, Behind(ent, f))
  {
    hide Low, Shr, Rev, Pow2, First, Offset, Code.Means, Code.EntryE, Code.EntryN;
    assert m.w + (ent.b + f.dropped) == m'.w + f.dropped;
  }

  /** `Walk` from the root: the entry found is the one for the code that `x` starts with. */
  lemma WalkRoot(cd: Code, el: nat, tables: seq<seq<Huft>>, metas: seq<Meta>, x: nat)
    requires cd.Valid() && Complete(cd, el, tables, metas)
    ensures var f := Walk(tables, 0, metas[0].l, x);
            && cd.Decodes(f.ent, f.dropped, x)
            && !f.ent.Link()
            && f.dropped + f.ent.b <= f.asked <= cd.g
            && (0 < el == f.dropped + f.ent.b ==> f.asked == el)
  {
    assert MetaOK(cd, el, metas[0]) && metas[0].pr == 0;
    WalkFrom(cd, el, tables, metas, 0, x);
  }

  // ----- facts about complete codes

  lemma {:induction false} FirstUp(c: seq<nat>, k: nat, m: nat)
    requires 1 <= k && k + m < |c|
    ensures (First(c, k) + c[k]) * Pow2(m) <= First(c, k + m) + c[k + m]
    decreases m
  {
    if m > 0 {
      FirstUp(c, k, m - 1);
      MulAssoc(First(c, k) + c[k], Pow2(m - 1), 2);
      assert Pow2(m) == Pow2(m - 1) * 2;
    }
  }

  /** If some length runs past its last code word, so does every longer one. */
  lemma OverUp(c: seq<nat>, j: nat, g: nat)
    requires 1 <= j <= g < |c|
    requires Pow2(j) < First(c, j) + c[j]
    ensures Pow2(g) < First(c, g) + c[g]
  {
    var m := g - j;
    FirstUp(c, j, m);
    Pow2Add(j, m);
    MulMono(Pow2(j) + 1, First(c, j) + c[j], Pow2(m));
    Distribute(Pow2(j), 1, Pow2(m));
  }

  /** A complete code is not full before its longest length. */
  lemma NotFull(cd: Code, j: nat)
    requires cd.Valid() && 1 <= j <= cd.g
    ensures First(cd.c, j) + cd.c[j] <= Pow2(j)
    ensures j < cd.g ==> First(cd.c, j) + cd.c[j] < Pow2(j)
  {
    var c, g := cd.c, cd.g;
    assert First(c, g) == if g == 1 then 0 else 2 * (First(c, g - 1) + c[g - 1]);
    assert Pow2(g) == 2 * Pow2(g - 1);
    hide First, Pow2, Offset;
    if Pow2(j) < First(c, j) + c[j] {
      OverUp(c, j, g);
    }
    if j < g && First(c, j) + c[j] == Pow2(j) {
      var m := g - 1 - j;
      FirstUp(c, j, m);
      Pow2Add(j, m);
    }
  }
}
