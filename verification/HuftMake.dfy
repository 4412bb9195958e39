/** `huft_build`: the two halves put together, and the theorem about its tables. */
module HuftMake {
  import opened Wrappers
  import opened Bits
  import opened BitStream
  import opened Canonical
  import opened HuftTable
  import opened HuftWidth
  import opened HuftCode
  import opened HuftFrontier

  /** Between two code words: all tables are in shape, everything below the frontier is
      written, and, unless the last code word is behind us, the stack leads to it. */
  ghost predicate Ready(cd: Code, el: nat, tables: seq<seq<Huft>>, metas: seq<Meta>,
                        u: seq<nat>, x: seq<nat>, l: seq<nat>, w: nat, i: nat, frontier: nat)
  {
    && cd.Valid()
    && Shaped(cd, el, tables, metas)
    && WrittenBelow(cd, el, tables, metas, frontier)
    && |u| == |x| == |l|
    && (frontier < Pow2(cd.g) ==>
         if u == [] then tables == [] && w == 0 && i == 0 && frontier == 0
         else Stacked(cd, tables, metas, u, x, l, w, i, frontier) && i < Pow2(w + l[|u| - 1]))
  }

  /** The words begin right after the `k`-bit codes that are done. */
  ghost predicate At(cd: Code, k: nat, done: nat, frontier: nat)
    requires cd.Sized()
  {
    1 <= k <= cd.g && done <= cd.c[k] && frontier == (First(cd.c, k) + done) * Pow2(cd.g - k)
  }

  lemma StepBound(a: int, d: int, p: int, whole: int)
    requires a <= p && 0 < d && p * d == whole
    ensures a * d <= whole
    ensures a < p ==> (a + 1) * d == a * d + d <= whole
  {
    MulMono(a, p, d);
    if a < p {
      MulMono(a + 1, p, d);
    }
  }

  lemma AtBound(cd: Code, k: nat, done: nat, frontier: nat)
    requires cd.Valid() && At(cd, k, done, frontier) && k < |cd.c|
    ensures frontier <= Pow2(cd.g)
    ensures done < cd.c[k] ==>
              frontier + Pow2(cd.g - k) <= Pow2(cd.g) && At(cd, k, done + 1, frontier + Pow2(cd.g - k))
  {
    hide *;
    AtIs(cd, k, done, frontier);
    NotFull(cd, k);
    Pow2Add(k, cd.g - k);
    StepBound(First(cd.c, k) + done, Pow2(cd.g - k), Pow2(k), Pow2(cd.g));
    if done < cd.c[k] {
      AtIntro(cd, k, done + 1, frontier + Pow2(cd.g - k));
    }
  }

  lemma AtIntro(cd: Code, k: nat, done: nat, frontier: nat)
    requires cd.Sized() && 1 <= k <= cd.g && k < |cd.c| && done <= cd.c[k]
    requires frontier == (First(cd.c, k) + done) * Pow2(cd.g - k)
    ensures At(cd, k, done, frontier)
  {
  }

  lemma AtNext(cd: Code, k: nat, frontier: nat)
    requires cd.Valid() && 1 <= k <= cd.g && k < |cd.c| && At(cd, k, cd.c[k], frontier)
    ensures k < cd.g ==> At(cd, k + 1, 0, frontier)
    ensures k == cd.g ==> frontier == Pow2(cd.g)
  {
    var a := First(cd.c, k) + cd.c[k];
    if k < cd.g {
      assert First(cd.c, k + 1) == 2 * a;
      assert Pow2(cd.g - k) == 2 * Pow2(cd.g - k - 1);
      MulAssoc(a, 2, Pow2(cd.g - k - 1));
    } else {
      assert Pow2(0) == 1;
    }
  }

  /** The next code word of `k` bits, in terms of the frontier. */
  lemma CodeWord(cd: Code, k: nat, done: nat, frontier: nat, i: nat, w: nat)
    requires cd.Valid() && At(cd, k, done, frontier)
    requires w <= k <= cd.g && k < |cd.c| && i < Pow2(w) && Rev(cd.g, i) == frontier
    ensures First(cd.c, k) + done == Rev(w, i) * Pow2(k - w)
    ensures i < Pow2(k) && Rev(k, i) == First(cd.c, k) + done
  {
    hide *;
    Pow2Mono(w, k);
    RevPad(w, k - w, i);
    RevPad(k, cd.g - k, i);
    AtIs(cd, k, done, frontier);
    SplitUnique(Pow2(cd.g - k), Rev(k, i), 0, First(cd.c, k) + done, 0);
  }

  lemma AtIs(cd: Code, k: nat, done: nat, frontier: nat)
    requires cd.Valid() && At(cd, k, done, frontier)
    ensures cd.Sized() && 1 <= k <= cd.g <= 16 && |cd.c| == 17 && done <= cd.c[k]
    ensures frontier == (First(cd.c, k) + done) * Pow2(cd.g - k)
  {
  }

  /** When the last code word has been entered, nothing in the tables is left unwritten. */
  lemma AllWritten(cd: Code, el: nat, tables: seq<seq<Huft>>, metas: seq<Meta>)
    requires cd.Valid() && Shaped(cd, el, tables, metas) && |tables| > 0
    requires WrittenBelow(cd, el, tables, metas, Pow2(cd.g))
    ensures Complete(cd, el, tables, metas)
  {
    forall id: nat, j: nat | id < |metas| && j < |tables[id]|
      ensures tables[id][j].b > 0
    {
      assert MetaOK(cd, el, metas[id]);
      LoIsRev(cd.g, metas[id], j);
      assert Lo(cd.g, metas[id], j) < Pow2(cd.g);
    }
  }

  /** Making the first table keeps everything in order. */
  lemma OpenFirst(cd: Code, el: nat, tables: seq<seq<Huft>>, metas: seq<Meta>,
                  u: seq<nat>, x: seq<nat>, l: seq<nat>, w: nat, i: nat, frontier: nat, j: nat)
    requires Ready(cd, el, tables, metas, u, x, l, w, i, frontier)
    requires frontier < Pow2(cd.g) && u == []
    requires 1 <= j <= cd.g && (0 < el ==> j <= el)
    ensures Ready(cd, el, [seq(Pow2(j), _ => Blank())], [Meta(0, 0, j)], [0], [0], [j], 0, 0, frontier)
    ensures tables == [] && metas == [] && w == 0 && i == 0 && frontier == 0
  {
    FirstTable(cd, el, j);
  }

  /** The slot of the table on top that the next code word leads to. */
  lemma TopFacts(cd: Code, el: nat, tables: seq<seq<Huft>>, metas: seq<Meta>,
                 u: seq<nat>, x: seq<nat>, l: seq<nat>, w: nat, i: nat, frontier: nat, top: nat, w': nat)
    requires Ready(cd, el, tables, metas, u, x, l, w, i, frontier)
    requires frontier < Pow2(cd.g) && u != [] && top == u[|u| - 1] && w' == w + l[|u| - 1]
    ensures cd.Valid() && cd.Sized() && Shaped(cd, el, tables, metas) && WrittenBelow(cd, el, tables, metas, frontier)
    ensures |u| == |x| == |l| && Stacked(cd, tables, metas, u, x, l, w, i, frontier)
    ensures top < |tables| == |metas| && MetaOK(cd, el, metas[top]) && |tables[top]| == Pow2(metas[top].l)
    ensures metas[top].w == w && metas[top].l == w' - w && metas[top].pr == Low(w, i)
    ensures i < Pow2(w') && Rev(cd.g, i) == frontier
  {
    hide Low, Shr, Rev, Pow2, Lo, Hi, Pattern, SlotOK, LinkedUp, First, Offset;
    assert Level(cd.g, metas, u, x, l, i, |u| - 1);
  }

  lemma ReadyIntro(cd: Code, el: nat, tables: seq<seq<Huft>>, metas: seq<Meta>,
                   u: seq<nat>, x: seq<nat>, l: seq<nat>, w: nat, i: nat, frontier: nat)
    requires cd.Valid() && Shaped(cd, el, tables, metas) && WrittenBelow(cd, el, tables, metas, frontier)
    requires |u| == |x| == |l| > 0
    requires frontier < Pow2(cd.g) ==>
               Stacked(cd, tables, metas, u, x, l, w, i, frontier) && i < Pow2(w + l[|u| - 1])
    ensures Ready(cd, el, tables, metas, u, x, l, w, i, frontier)
  {
  }

  lemma LinkInSize(tables: seq<seq<Huft>>, top: nat, J: nat, ent: Huft, z: nat)
    ensures top < |tables| && J < |tables[top]| ==> |LinkIn(tables, top, J, ent, z)| == |tables| + 1
  {
  }

  lemma MetaIntro(cd: Code, el: nat, m: Meta)
    requires 1 <= m.l && m.w + m.l <= cd.g && m.pr < Pow2(m.w) && (m.w < el ==> m.w + m.l <= el)
    ensures MetaOK(cd, el, m)
  {
  }

  /** So does making a deeper one and linking it into the table on top of the stack. */
  lemma OpenNext(cd: Code, el: nat, tables: seq<seq<Huft>>, metas: seq<Meta>,
                 u: seq<nat>, x: seq<nat>, l: seq<nat>, w: nat, i: nat, frontier: nat,
                 j: nat, ent: Huft, top: nat, w': nat, J: nat)
    requires Ready(cd, el, tables, metas, u, x, l, w, i, frontier)
    requires frontier < Pow2(cd.g) && u != [] && top == u[|u| - 1] && w' == w + l[|u| - 1]
    requires J == Shr(Low(w', i), w)
    requires 1 <= j && w' + j <= cd.g && (w' < el ==> w' + j <= el)
    requires ent.e == 16 + j && ent.b == l[|u| - 1] > 0 && ent.t == |tables|
    ensures top < |tables| && J < |tables[top]|
    ensures |LinkIn(tables, top, J, ent, Pow2(j))| == |tables| + 1
    ensures Ready(cd, el, LinkIn(tables, top, J, ent, Pow2(j)), metas + [Meta(w', i, j)],
                  u + [|tables|], x + [i], l + [j], w', i, frontier)
  {
    hide *;
    var M := Meta(w', i, j);
    LinkInSize(tables, top, J, ent, Pow2(j));
    TopFacts(cd, el, tables, metas, u, x, l, w, i, frontier, top, w');
    MetaIntro(cd, el, M);
    LinkSlot(metas[top], i);
    LowSmall(w', i);
    LinkShaped(cd, el, tables, metas, top, i, j, ent);
    LinkWritten(cd, el, tables, metas, top, J, ent, M, frontier);
    LinkStacked(cd, tables, metas, u, x, l, w, i, frontier, J, ent, M);
    Pow2Mono(w', w' + j);
    ReadyIntro(cd, el, LinkIn(tables, top, J, ent, Pow2(j)), metas + [M], u + [|tables|], x + [i], l + [j], w', i, frontier);
  }

  /** The working variables of `huft_build` while it makes the table entries: the tables so
      far, the stacks `u[0..h]`, `x[0..h]` and `l[0..h]`, the bits `w` before the current
      table and the current code `i`. */
  datatype Work = Work(tables: seq<seq<Huft>>, u: seq<nat>, x: seq<nat>, l: seq<nat>, w: nat, i: nat) {
    /** Bits decoded once the current table has been used. */
    function Reach(): nat
      requires |l| > 0
    {
      w + l[|l| - 1]
    }
  }

  /** The table is as wide as the code lengths say. */
  ghost predicate WidthOK(cd: Code, el: nat, m: nat, mt: Meta) {
    mt.w < cd.g < |cd.c| && mt.l == WidthAt(cd.c, cd.g, el, m, mt.w, Rev(mt.w, mt.pr))
  }

  /** The widths of the tables; there is only one if it is as wide as the longest code. */
  ghost predicate Root(cd: Code, el: nat, m: nat, wk: Work, metas: seq<Meta>) {
    && |metas| == |wk.tables|
    && (wk.l == [] <==> wk.tables == [])
    && (wk.l != [] ==> wk.l[0] == metas[0].l)
    && (|metas| > 1 ==> metas[0].l < cd.g)
    && (Wide(cd, el, m) && metas != [] ==> metas[0].l == cd.g)
    && forall id :: 0 <= id < |metas| ==> WidthOK(cd, el, m, metas[id])
  }

  /** The table is asked to be as wide as the longest code, and end of block allows it. */
  predicate Wide(cd: Code, el: nat, m: nat) {
    m >= cd.g && (el == 0 || el >= cd.g)
  }

  /** All is well after the first `done` codes of `k` bits. */
  ghost predicate Good(cd: Code, el: nat, m: nat, wk: Work, metas: seq<Meta>, frontier: nat, k: nat, done: nat) {
    && Ready(cd, el, wk.tables, metas, wk.u, wk.x, wk.l, wk.w, wk.i, frontier)
    && At(cd, k, done, frontier)
    && Root(cd, el, m, wk, metas)
  }

  lemma GoodFacts(cd: Code, el: nat, m: nat, wk: Work, metas: seq<Meta>, frontier: nat, k: nat, done: nat)
    requires Good(cd, el, m, wk, metas, frontier, k, done) && k < |cd.c| && done < cd.c[k]
    ensures cd.Valid() && cd.Sized() && |cd.c| == 17 && 1 <= k <= cd.g <= 16 && |wk.u| == |wk.x| == |wk.l|
    ensures frontier < Pow2(cd.g)
    ensures At(cd, k, done, frontier) && Root(cd, el, m, wk, metas)
    ensures Ready(cd, el, wk.tables, metas, wk.u, wk.x, wk.l, wk.w, wk.i, frontier)
    ensures wk.u == [] ==> wk.tables == [] && wk.w == 0 && wk.i == 0 && frontier == 0
    ensures wk.u != [] ==>
              Stacked(cd, wk.tables, metas, wk.u, wk.x, wk.l, wk.w, wk.i, frontier) && wk.i < Pow2(wk.Reach())
  {
    hide Shaped, WrittenBelow, Stacked, At, Code.Valid;
    AtBound(cd, k, done, frontier);
    AtIs(cd, k, done, frontier);
  }

  lemma GoodIntro(cd: Code, el: nat, m: nat, wk: Work, metas: seq<Meta>, frontier: nat, k: nat, done: nat)
    requires Ready(cd, el, wk.tables, metas, wk.u, wk.x, wk.l, wk.w, wk.i, frontier)
    requires At(cd, k, done, frontier) && Root(cd, el, m, wk, metas)
    ensures Good(cd, el, m, wk, metas, frontier, k, done)
  {
  }

  lemma NothingDone(cd: Code, k: nat, done: nat)
    requires cd.Valid() && At(cd, k, done, 0)
    ensures First(cd.c, k) + done == 0
  {
    AtIs(cd, k, done, 0);
    hide First, Pow2;
    if First(cd.c, k) + done > 0 {
      MulMono(1, First(cd.c, k) + done, Pow2(cd.g - k));
    }
  }

  /** Make one more table, for codes of `k` bits of which `a + 1` are left. */
  method OpenTable(cd: Code, el: nat, m: nat, wk: Work, ghost metas: seq<Meta>, ghost frontier: nat, k: nat, a: nat)
    returns (wk': Work, ghost metas': seq<Meta>)
    requires |cd.c| == 17 && 1 <= k <= 16 && a < cd.c[k]
    requires Good(cd, el, m, wk, metas, frontier, k, cd.c[k] - a - 1)
    requires wk.l != [] ==> wk.Reach() < k
    ensures Good(cd, el, m, wk', metas', frontier, k, cd.c[k] - a - 1)
    ensures wk'.l != [] && wk'.w < k && wk'.i == wk.i
    ensures wk.l != [] ==> wk.Reach() < wk'.Reach()
    ensures |wk'.u| <= cd.g <= 16
  {
    ReachIs(wk);
    hide *;
    ghost var done := cd.c[k] - a - 1;
    GoodFacts(cd, el, m, wk, metas, frontier, k, done);
    if wk.u == [] {
      NothingDone(cd, k, done);
      RevNothing();
      var j := ChooseWidth(cd, el, m, 0, k, a, 0);
      OpenFirst(cd, el, wk.tables, metas, wk.u, wk.x, wk.l, wk.w, wk.i, frontier, j);
      wk' := Work([seq(Pow2(j), _ => Blank())], [0], [0], [j], 0, 0);
      metas' := [Meta(0, 0, j)];
      WidthIs(cd, el, m, 0, 0, k, done, j);
      RootFirst(cd, el, m, wk', metas', j);
      GoodIntro(cd, el, m, wk', metas', frontier, k, done);
    } else {
      var h := |wk.u| - 1;
      var top, w := wk.u[h], wk.w + wk.l[h];
      TopFacts(cd, el, wk.tables, metas, wk.u, wk.x, wk.l, wk.w, wk.i, frontier, top, w);
      MetaIs(cd, el, metas[top]);
      CodeWord(cd, k, done, frontier, wk.i, w);
      var j := ChooseWidth(cd, el, m, w, k, a, Rev(w, wk.i));
      var r := Huft(16 + j, wk.l[h], 0, |wk.tables|);
      var J := Shr(Low(w, wk.i), wk.w);
      OpenNext(cd, el, wk.tables, metas, wk.u, wk.x, wk.l, wk.w, wk.i, frontier, j, r, top, w, J);
      wk' := Work(LinkIn(wk.tables, top, J, r, Pow2(j)), wk.u + [|wk.tables|], wk.x + [wk.i], wk.l + [j], w, wk.i);
      metas' := metas + [Meta(w, wk.i, j)];
      WidthIs(cd, el, m, w, wk.i, k, done, j);
      RootNext(cd, el, m, wk, metas, wk', metas', top, w);
      GoodIntro(cd, el, m, wk', metas', frontier, k, done);
      ReachIs(wk');
    }
    GoodLevels(cd, el, m, wk', metas', frontier, k, done);
  }

  lemma GoodLevels(cd: Code, el: nat, m: nat, wk: Work, metas: seq<Meta>, frontier: nat, k: nat, done: nat)
    requires Good(cd, el, m, wk, metas, frontier, k, done) && k < |cd.c| && done < cd.c[k] && wk.l != []
    ensures |wk.u| <= cd.g <= 16
  {
    GoodFacts(cd, el, m, wk, metas, frontier, k, done);
    hide Shaped, Stacked, Root, At;
    if wk.u != [] {
      Levels(cd, el, wk.tables, metas, wk.u, wk.x, wk.l, wk.w, wk.i, frontier);
    }
  }

  lemma RevNothing()
    ensures Rev(0, 0) == 0
  {
  }

  lemma ReachIs(wk: Work)
    ensures |wk.l| > 0 ==> wk.Reach() == wk.w + wk.l[|wk.l| - 1]
  {
  }

  lemma MetaIs(cd: Code, el: nat, m: Meta)
    requires MetaOK(cd, el, m)
    ensures 1 <= m.l && m.w + m.l <= cd.g
  {
  }

  lemma RootNext(cd: Code, el: nat, m: nat, wk: Work, metas: seq<Meta>, wk': Work, metas': seq<Meta>, top: nat, w: nat)
    requires Root(cd, el, m, wk, metas)
    requires |wk.tables| > 0 && |wk'.tables| == |metas'| == |metas| + 1 && metas'[..|metas|] == metas
    requires WidthOK(cd, el, m, metas'[|metas|])
    requires |wk.l| > 0 && |wk'.l| > 0 && wk'.l[0] == wk.l[0]
    requires top < |metas| && metas[top].w + metas[top].l == w < cd.g
    ensures Root(cd, el, m, wk', metas')
  {
    hide WidthOK;
    assert forall id :: 0 <= id < |metas| ==> metas'[id] == metas'[..|metas|][id] == metas[id];
  }

  lemma WidthIs(cd: Code, el: nat, m: nat, w: nat, i: nat, k: nat, done: nat, j: nat)
    requires w < k <= cd.g < |cd.c| && done < cd.c[k] && First(cd.c, k) + done == Rev(w, i) * Pow2(k - w)
    requires j == TableWidth(cd.c, cd.g, el, m, w, k, cd.c[k] - done - 1)
    ensures WidthOK(cd, el, m, Meta(w, i, j))
  {
    hide First, Pow2, Rev, TableWidth, WidthAt;
    WidthOpens(cd.c, cd.g, el, m, w, Rev(w, i), k, done);
  }

  lemma RootFirst(cd: Code, el: nat, m: nat, wk: Work, metas: seq<Meta>, j: nat)
    requires |wk.tables| == 1 && wk.l == [j] && metas == [Meta(0, 0, j)]
    requires m >= cd.g && (el == 0 || el >= cd.g) ==> j == cd.g
    requires WidthOK(cd, el, m, Meta(0, 0, j))
    ensures Root(cd, el, m, wk, metas)
  {
  }

  /** Overwriting slots with an entry keeps every link of the stack in place. */
  lemma FillStacked(cd: Code, tables: seq<seq<Huft>>, metas: seq<Meta>,
                    u: seq<nat>, x: seq<nat>, l: seq<nat>, w: nat, i: nat, frontier: nat, top: nat, q: seq<Huft>)
    requires cd.Valid() && Stacked(cd, tables, metas, u, x, l, w, i, frontier)
    requires top < |tables| && |q| == |tables[top]|
    requires forall j :: 0 <= j < |q| ==> q[j].b > 0 || q[j] == tables[top][j]
    ensures Stacked(cd, tables[top := q], metas, u, x, l, w, i, frontier)
  {
    hide Low, Shr, Rev, Pow2, Pattern, Level, Closed;
    var tables' := tables[top := q];
    forall m | 0 <= m < |u| - 1
      ensures LinkedUp(tables', metas, u, m)
    {
      assert LinkedUp(tables, metas, u, m);
    }
  }

  lemma MeansEntry(cd: Code, k: nat, r: Huft, i: nat, done: nat)
    requires cd.Valid() && k <= 17 && cd.Means(r, k, done) && Rev(k, i) == First(cd.c, k) + done
    ensures First(cd.c, k) <= Rev(k, i) && cd.Means(r, k, Rev(k, i) - First(cd.c, k))
  {
  }

  /** The state after the slots under the code word have been filled with `r`. */
  lemma FillReady(cd: Code, el: nat, tables: seq<seq<Huft>>, metas: seq<Meta>,
                  u: seq<nat>, x: seq<nat>, l: seq<nat>, w: nat, i: nat, frontier: nat,
                  k: nat, done: nat, r: Huft, top: nat, q: seq<Huft>)
    requires Ready(cd, el, tables, metas, u, x, l, w, i, frontier) && frontier < Pow2(cd.g)
    requires |u| == |x| == |l| > 0 && top == u[|u| - 1] && w < k <= w + l[|u| - 1]
    requires k < |cd.c| && At(cd, k, done, frontier)
    requires !r.Link() && r.b == k - w && cd.Means(r, k, done)
    requires top < |tables| && |q| == |tables[top]|
    requires forall j :: 0 <= j < |q| ==> q[j] == if Low(k - w, j) == Shr(i, w) then r else tables[top][j]
    ensures cd.Valid() && i < Pow2(k) && Rev(k, i) == First(cd.c, k) + done && k <= cd.g && k <= w + l[|u| - 1]
    ensures Shaped(cd, el, tables[top := q], metas)
    ensures WrittenBelow(cd, el, tables[top := q], metas, frontier + Pow2(cd.g - k))
    ensures Stacked(cd, tables[top := q], metas, u, x, l, w, i, frontier)
  {
    hide *;
    TopFacts(cd, el, tables, metas, u, x, l, w, i, frontier, top, w + l[|u| - 1]);
    AtIs(cd, k, done, frontier);
    MetaIs(cd, el, metas[top]);
    Pow2Mono(w + l[|u| - 1], cd.g);
    AlignedWord(cd, k, done, frontier, i);
    MeansEntry(cd, k, r, i, done);
    FillShaped(cd, el, tables, metas, top, k, i, r, q);
    FillWritten(cd, el, tables, metas, u, x, l, w, i, frontier, k, r, q);
    FillStacked(cd, tables, metas, u, x, l, w, i, frontier, top, q);
  }

  /** Fill code-like entries with `r`, step to the next code, and back up over finished tables. */
  method EnterCode(cd: Code, ghost el: nat, ghost m: nat, wk: Work, ghost metas: seq<Meta>, ghost frontier: nat,
                   k: nat, ghost done: nat, r: Huft)
    returns (wk': Work)
    requires |cd.c| == 17 && 1 <= k <= 16 && done < cd.c[k]
    requires Good(cd, el, m, wk, metas, frontier, k, done)
    requires wk.l != [] && wk.w < k <= wk.Reach()
    requires cd.Sized() && !r.Link() && r.b == k - wk.w && cd.Means(r, k, done)
    ensures Good(cd, el, m, wk', metas, frontier + Pow2(cd.g - k), k, done + 1)
    ensures wk'.l != [] && wk'.w <= wk.w
  {
    ReachIs(wk);
    hide *;
    GoodFacts(cd, el, m, wk, metas, frontier, k, done);
    ghost var next := frontier + Pow2(cd.g - k);
    var top := wk.u[|wk.u| - 1];
    TopFacts(cd, el, wk.tables, metas, wk.u, wk.x, wk.l, wk.w, wk.i, frontier, top, wk.Reach());
    MetaIs(cd, el, metas[top]);
    Pow2Mono(wk.Reach(), cd.g);
    AlignedWord(cd, k, done, frontier, wk.i);
    ShrMono(wk.i, wk.w, k - wk.w);
    var q := FillSlots(wk.tables[top], Shr(wk.i, wk.w), k - wk.w, r);
    FillReady(cd, el, wk.tables, metas, wk.u, wk.x, wk.l, wk.w, wk.i, frontier, k, done, r, top, q);
    var tables := wk.tables[top := q];
    var i := BackIncrement(wk.i, k);
    NextWord(cd, k, done, frontier, wk.i, i);
    var h, w := BackUp(cd, tables, metas, wk.u, wk.x, wk.l, wk.w, wk.i, frontier, k, i);
    wk' := Work(tables, wk.u[..h + 1], wk.x[..h + 1], wk.l[..h + 1], w, i);
    AtBound(cd, k, done, frontier);
    ReadyIntro(cd, el, tables, metas, wk'.u, wk'.x, wk'.l, w, i, next);
    RootKeep(cd, el, m, wk, metas, wk');
    GoodIntro(cd, el, m, wk', metas, next, k, done + 1);
  }

  lemma RootKeep(cd: Code, el: nat, m: nat, wk: Work, metas: seq<Meta>, wk': Work)
    requires Root(cd, el, m, wk, metas)
    requires |wk'.tables| == |wk.tables|
    requires |wk.l| > 0 && |wk'.l| > 0 && wk'.l[0] == wk.l[0]
    ensures Root(cd, el, m, wk', metas)
  {
  }

  /** A frontier that the `k`-bit codes have reached is a word of at most `k` bits. */
  lemma AlignedWord(cd: Code, k: nat, done: nat, frontier: nat, i: nat)
    requires cd.Valid() && At(cd, k, done, frontier) && k < |cd.c| && i < Pow2(cd.g) && Rev(cd.g, i) == frontier
    ensures i < Pow2(k) && Rev(k, i) == First(cd.c, k) + done
  {
    hide *;
    AtIs(cd, k, done, frontier);
    RevAligned(k, cd.g - k, i, First(cd.c, k) + done);
  }

  lemma StepReflect(a: int, d: int, p: int, f: int, whole: int)
    requires 0 < d && f == a * d && p * d == whole && f + d < whole
    ensures a + 1 < p && (a + 1) * d == f + d
  {
    if p <= a + 1 {
      MulMono(p, a + 1, d);
    }
  }

  lemma NextWord(cd: Code, k: nat, done: nat, frontier: nat, i: nat, i': nat)
    requires cd.Valid() && At(cd, k, done, frontier) && k < |cd.c| && done < cd.c[k]
    requires i < Pow2(k) && Rev(k, i) == First(cd.c, k) + done
    requires Rev(k, i) + 1 < Pow2(k) ==> i' < Pow2(k) && Rev(k, i') == Rev(k, i) + 1
    ensures frontier + Pow2(cd.g - k) < Pow2(cd.g) ==>
              i' < Pow2(k) && i' < Pow2(cd.g) && Rev(cd.g, i') == frontier + Pow2(cd.g - k)
  {
    hide *;
    AtIs(cd, k, done, frontier);
    var next := frontier + Pow2(cd.g - k);
    if next < Pow2(cd.g) {
      Pow2Add(k, cd.g - k);
      StepReflect(Rev(k, i), Pow2(cd.g - k), Pow2(k), frontier, Pow2(cd.g));
      RevPad(k, cd.g - k, i');
      Pow2Mono(k, cd.g);
    }
  }

  /** `p` is the next value.  With one-bit codes `r` still holds what was last taken from `v`. */
  ghost predicate NextValue(cd: Code, k: nat, done: nat, p: nat, r: Huft)
    requires cd.Sized() && k <= 17
  {
    && p == (if Offset(cd.c, k) + done < |cd.v| then Offset(cd.c, k) + done else |cd.v|)
    && (cd.g == 1 && p > 0 ==> r.n == cd.EntryN(cd.v[p - 1]))
  }

  /** Set up table entry in `r`. */
  method SetEntry(cd: Code, k: nat, w: nat, p: nat, r: Huft, ghost done: nat) returns (r': Huft, p': nat)
    requires cd.Valid() && 1 <= k <= cd.g && k < |cd.c| && done < cd.c[k] && w < k
    requires NextValue(cd, k, done, p, r)
    ensures !r'.Link() && r'.b == k - w && cd.Means(r', k, done)
    ensures NextValue(cd, k, done + 1, p', r')
  {
    r', p' := r.(b := k - w), p;
    if p >= |cd.v| {
      r' := r'.(e := 99);   // out of values--invalid code
    } else if cd.v[p] < cd.s {
      r' := r'.(e := if cd.v[p] < 256 then 16 else 15, n := cd.v[p]);
      p' := p + 1;
    } else {
      var j := cd.v[p] - cd.s;
      r' := r'.(e := if j < |cd.e| then cd.e[j] else 99, n := if j < |cd.d| then cd.d[j] else 0);
      p' := p + 1;
    }
  }

  /** All tables are made, and the first one has `bl` bits. */
  ghost predicate Built(cd: Code, el: nat, m: nat, tables: seq<seq<Huft>>, metas: seq<Meta>, bl: nat) {
    && cd.Valid()
    && Complete(cd, el, tables, metas)
    && bl == metas[0].l
    && (Wide(cd, el, m) ==> |tables| == 1 && bl == cd.g)
    && forall id :: 0 <= id < |metas| ==> WidthOK(cd, el, m, metas[id])
  }

  lemma BuiltIntro(cd: Code, el: nat, m: nat, wk: Work, metas: seq<Meta>)
    requires Ready(cd, el, wk.tables, metas, wk.u, wk.x, wk.l, wk.w, wk.i, Pow2(cd.g))
    requires Root(cd, el, m, wk, metas) && wk.l != []
    ensures Built(cd, el, m, wk.tables, metas, wk.l[0])
  {
    AllWritten(cd, el, wk.tables, metas);
  }

  lemma GoodParts(cd: Code, el: nat, m: nat, wk: Work, metas: seq<Meta>, frontier: nat, k: nat, done: nat)
    requires Good(cd, el, m, wk, metas, frontier, k, done)
    ensures Ready(cd, el, wk.tables, metas, wk.u, wk.x, wk.l, wk.w, wk.i, frontier)
    ensures cd.Valid() && At(cd, k, done, frontier) && Root(cd, el, m, wk, metas)
  {
  }

  lemma ValidFacts(cd: Code)
    requires cd.Valid()
    ensures cd.Sized() && |cd.c| == 17 && 1 <= cd.g <= 16 && cd.c[cd.g] > 0
  {
  }

  lemma Start(cd: Code, el: nat, m: nat, k: nat, r: Huft)
    requires cd.Valid() && 1 <= k <= cd.g && forall j :: 1 <= j < k ==> cd.c[j] == 0
    ensures Good(cd, el, m, Work([], [], [], [], 0, 0), [], 0, k, 0)
    ensures NextValue(cd, k, 0, 0, r)
  {
    FirstZero(cd.c, k);
    OffsetZero(cd.c, k);
  }

  lemma NextLength(cd: Code, k: nat, p: nat, r: Huft)
    requires cd.Valid() && 1 <= k < cd.g && NextValue(cd, k, cd.c[k], p, r)
    ensures NextValue(cd, k + 1, 0, p, r)
  {
    assert Offset(cd.c, k + 1) == Offset(cd.c, k) + cd.c[k];
  }

  /** Enter the `k`-bit codes. */
  method EnterLength(cd: Code, el: nat, m: nat, wk: Work, ghost metas: seq<Meta>, ghost frontier: nat,
                     k: nat, p: nat, r: Huft)
    returns (wk': Work, ghost metas': seq<Meta>, ghost frontier': nat, p': nat, r': Huft)
    requires |cd.c| == 17 && 1 <= k <= 16 && cd.Sized()
    requires Good(cd, el, m, wk, metas, frontier, k, 0) && NextValue(cd, k, 0, p, r)
    ensures Good(cd, el, m, wk', metas', frontier', k, cd.c[k]) && NextValue(cd, k, cd.c[k], p', r')
    requires wk.l != [] ==> wk.w < k
    ensures wk'.l != [] ==> wk'.w < k
    ensures wk.l != [] || cd.c[k] > 0 ==> wk'.l != []
  {
    hide *;
    wk', metas', frontier', p', r' := wk, metas, frontier, p, r;
    GoodParts(cd, el, m, wk, metas, frontier, k, 0);
    AtIs(cd, k, 0, frontier);
    var a := cd.c[k];
    while a > 0
      invariant 0 <= a <= cd.c[k]
      invariant Good(cd, el, m, wk', metas', frontier', k, cd.c[k] - a)
      invariant NextValue(cd, k, cd.c[k] - a, p', r')
      invariant wk.l != [] || a < cd.c[k] ==> wk'.l != []
      invariant wk'.l != [] ==> wk'.w < k
    {
      ghost var done := cd.c[k] - a;
      a := a - 1;
      // Make tables up to required level.
      while wk'.l == [] || k > wk'.Reach()
        invariant Good(cd, el, m, wk', metas', frontier', k, done)
        invariant wk'.l != [] ==> wk'.w < k
        decreases if wk'.l == [] then 1 else 0, if wk'.l == [] then 0 else k - wk'.Reach()
      {
        wk', metas' := OpenTable(cd, el, m, wk', metas', frontier', k, a);
      }
      r', p' := SetEntry(cd, k, wk'.w, p', r', done);
      wk' := EnterCode(cd, el, m, wk', metas', frontier', k, done, r');
      frontier' := frontier' + Pow2(cd.g - k);
    }
  }

  /** Generate the Huffman codes and for each, make the table entries. */
  method BuildTables(cd: Code, el: nat, m: nat, kmin: nat)
    returns (tables: seq<seq<Huft>>, bl: nat)
    requires cd.Valid() && 1 <= kmin <= cd.g && forall j :: 1 <= j < kmin ==> cd.c[j] == 0
    ensures exists metas :: Built(cd, el, m, tables, metas, bl)
  {
    hide *;
    ValidFacts(cd);
    var wk, p, r := Work([], [], [], [], 0, 0), 0, Huft(0, 0, 0, 0);
    ghost var frontier := 0;
    ghost var metas := [];
    Start(cd, el, m, kmin, r);
    var k := kmin;
    while k < cd.g
      invariant kmin <= k <= cd.g
      invariant Good(cd, el, m, wk, metas, frontier, k, 0) && NextValue(cd, k, 0, p, r)
      invariant wk.l != [] ==> wk.w < k
    {
      wk, metas, frontier, p, r := EnterLength(cd, el, m, wk, metas, frontier, k, p, r);
      GoodParts(cd, el, m, wk, metas, frontier, k, cd.c[k]);
      AtNext(cd, k, frontier);
      GoodIntro(cd, el, m, wk, metas, frontier, k + 1, 0);
      NextLength(cd, k, p, r);
      k := k + 1;
    }
    // the last turn, for k == g, after which the frontier is the end
    wk, metas, frontier, p, r := EnterLength(cd, el, m, wk, metas, frontier, k, p, r);
    GoodParts(cd, el, m, wk, metas, frontier, k, cd.c[k]);
    AtNext(cd, k, frontier);
    BuiltIntro(cd, el, m, wk, metas);
    tables, bl := wk.tables, wk.l[0];
  }

  lemma {:induction false} OffsetZero(c: seq<nat>, k: nat)
    requires k <= |c| && forall j :: 1 <= j < k ==> c[j] == 0
    ensures Offset(c, k) == 0
    decreases k
  {
    if k > 1 {
      OffsetZero(c, k - 1);
    }
  }

  // ----- the bits asked for

  lemma RevPrefix(k: nat, w: nat, x: nat)
    requires w <= k
    ensures Shr(Rev(k, x), k - w) == Rev(w, x)
  {
    hide *;
    RevSplit(w, k - w, x);
    RevRange(k - w, Shr(x, w));
    ShrIsDiv(k - w, Rev(k, x));
    DivUnique(Rev(k, x), Pow2(k - w), Rev(w, x), Rev(k - w, Shr(x, w)));
  }

  lemma RevRange(n: nat, x: nat)
    ensures Rev(n, x) < Pow2(n)
  {
  }

  /** The bits that a walk has asked for are those that the code lengths say, for the code word
      that it has found. */
  lemma {:induction false} WalkAsked(cd: Code, el: nat, m: nat, tables: seq<seq<Huft>>, metas: seq<Meta>, id: nat, x: nat)
    requires cd.Valid() && Complete(cd, el, tables, metas)
    requires forall i :: 0 <= i < |metas| ==> WidthOK(cd, el, m, metas[i])
    requires id < |metas| && metas[id].pr == Low(metas[id].w, x)
    ensures var w := metas[id].w;
            var f := Walk(tables, id, metas[id].l, Shr(x, w));
            var k := w + f.dropped + f.ent.b;
            && w < k <= cd.g < |cd.c|
            && w + f.asked == AskedFrom(cd.c, cd.g, el, m, Rev(k, x), k, w)
    decreases |tables| - id
  {
    hide *;
    var mt := metas[id];
    var j := Low(mt.l, Shr(x, mt.w));
    var f := Walk(tables, id, mt.l, Shr(x, mt.w));
    var k := mt.w + f.dropped + f.ent.b;
    SlotFacts(cd, el, tables, metas, id, j);
    WalkFrom(cd, el, tables, metas, id, x);
    DeliversIs(cd, el, mt.w, x, f);
    PatternLow(mt.w, mt.l, x, mt);
    WalkStep(tables, id, mt.l, Shr(x, mt.w));
    RevPrefix(k, mt.w, x);
    RevLow(mt.w, mt.w, x);
    WidthParts(cd, el, m, mt);
    AskedStep(cd.c, cd.g, el, m, Rev(k, x), k, mt.w);
    if tables[id][j].Link() {
      ShrShr(x, mt.w, mt.l);
      var t := tables[id][j].t;
      WalkAsked(cd, el, m, tables, metas, t, x);
      BehindIs(tables[id][j], Walk(tables, t, metas[t].l, Shr(x, metas[t].w)));
    }
  }

  lemma BehindIs(ent: Huft, f: Found)
    ensures Behind(ent, f) == Found(f.ent, ent.b + f.dropped, ent.b + f.asked)
  {
  }

  lemma DeliversIs(cd: Code, el: nat, w: nat, x: nat, f: Found)
    requires cd.Valid() && Delivers(cd, el, w, x, f)
    ensures 0 < f.ent.b && w + f.dropped + f.ent.b <= cd.g < |cd.c|
  {
  }

  lemma WidthParts(cd: Code, el: nat, m: nat, mt: Meta)
    requires WidthOK(cd, el, m, mt)
    ensures mt.w < cd.g < |cd.c| && mt.l == WidthAt(cd.c, cd.g, el, m, mt.w, Rev(mt.w, mt.pr))
  {
  }

  lemma AskedStep(c: seq<nat>, g: nat, el: nat, m: nat, v: nat, k: nat, w: nat)
    requires w < k <= g < |c|
    ensures var e := w + WidthAt(c, g, el, m, w, Shr(v, k - w));
            AskedFrom(c, g, el, m, v, k, w) == if k <= e then e else AskedFrom(c, g, el, m, v, k, e)
  {
    hide WidthAt;
  }
}
