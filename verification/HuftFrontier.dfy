/** The second half of `huft_build`: from a complete code to the decoding tables. */
module HuftFrontier {
  import opened Bits
  import opened HuftTable
  import opened HuftWidth

  /** The first of the `cd.g`-bit words that lead to slot `j` of a table. */
  ghost function Lo(g: nat, m: Meta, j: nat): nat
    requires m.w + m.l <= g
  {
    Rev(m.w + m.l, Pattern(m, j)) * Pow2(g - m.w - m.l)
  }

  /** One past the last word that enters a table. */
  ghost function Hi(g: nat, m: Meta): nat
    requires m.w <= g
  {
    (Rev(m.w, m.pr) + 1) * Pow2(g - m.w)
  }

  /** Every slot whose words begin below `frontier` has been written. */
  ghost predicate WrittenBelow(cd: Code, el: nat, tables: seq<seq<Huft>>, metas: seq<Meta>, frontier: nat)
    requires cd.Sized() && Shaped(cd, el, tables, metas)
  {
    forall id, j :: 0 <= id < |metas| && 0 <= j < |tables[id]| && Lo(cd.g, metas[id], j) < frontier ==>
      tables[id][j].b > 0
  }

  /** The table stack of `huft_build`: `u` tables, `x` code patterns, `l` table widths.
      `i` is the next code word, bit-reversed, and `frontier` is the same word counted the
      other way round.  Tables not on the stack lie wholly below the frontier. */
  ghost predicate Stacked(cd: Code, tables: seq<seq<Huft>>, metas: seq<Meta>,
                          u: seq<nat>, x: seq<nat>, l: seq<nat>, w: nat, i: nat, frontier: nat)
    requires cd.Sized()
  {
    && |u| == |x| == |l| > 0
    && |tables| == |metas|
    && u[0] == 0 && |metas| > 0 && metas[0].w == 0
    && (forall m :: 0 <= m < |u| ==> Level(cd.g, metas, u, x, l, i, m))
    && (forall m :: 0 <= m < |u| - 1 ==> LinkedUp(tables, metas, u, m))
    && Level(cd.g, metas, u, x, l, i, |u| - 1) && w == metas[u[|u| - 1]].w
    && i < Pow2(cd.g) && Rev(cd.g, i) == frontier
    && (forall id :: 0 <= id < |metas| && id !in u ==> Closed(cd.g, metas[id], frontier))
  }

  /** Level `m` of the stack agrees with its table and with the next code word. */
  ghost predicate Level(g: nat, metas: seq<Meta>, u: seq<nat>, x: seq<nat>, l: seq<nat>, i: nat, m: nat)
    requires m < |u| == |x| == |l|
  {
    && u[m] < |metas|
    && m <= metas[u[m]].w <= g
    && x[m] == metas[u[m]].pr == Low(metas[u[m]].w, i)
    && l[m] == metas[u[m]].l
  }

  /** There are never more tables on the stack than the longest code has bits. */
  lemma Levels(cd: Code, el: nat, tables: seq<seq<Huft>>, metas: seq<Meta>,
               u: seq<nat>, x: seq<nat>, l: seq<nat>, w: nat, i: nat, frontier: nat)
    requires cd.Valid() && Shaped(cd, el, tables, metas) && Stacked(cd, tables, metas, u, x, l, w, i, frontier)
    ensures |u| <= cd.g <= 16
  {
    assert Level(cd.g, metas, u, x, l, i, |u| - 1);
    assert MetaOK(cd, el, metas[u[|u| - 1]]);
  }

  ghost predicate Closed(g: nat, m: Meta, frontier: nat) {
    m.w <= g && Hi(g, m) <= frontier
  }

  ghost predicate LinkedUp(tables: seq<seq<Huft>>, metas: seq<Meta>, u: seq<nat>, m: nat)
    requires |tables| == |metas| && m + 1 < |u|
  {
    Linked(tables, metas, u[m], u[m + 1])
  }

  /** Table `t` hangs off a written slot of table `id`. */
  ghost predicate Linked(tables: seq<seq<Huft>>, metas: seq<Meta>, id: nat, t: nat)
    requires |tables| == |metas|
  {
    && id < |metas| && t < |metas|
    && metas[t].w == metas[id].w + metas[id].l
    && var j := Shr(metas[t].pr, metas[id].w);
       j < |tables[id]| && tables[id][j].b > 0 && Pattern(metas[id], j) == metas[t].pr
  }

  // ----- choosing the width of a table

  /** Between two codes of the longest length there is room for a whole table. */
  lemma LastLengthRoom(cd: Code, w: nat, q: nat, done: nat)
    requires cd.Valid() && w <= cd.g && done < cd.c[cd.g]
    requires First(cd.c, cd.g) + done == q * Pow2(cd.g - w)
    ensures Pow2(cd.g - w) <= cd.c[cd.g] - done
  {
    var d := Pow2(cd.g - w);
    Pow2Add(w, cd.g - w);
    assert q * d < Pow2(w) * d;
    MulReflect(q, Pow2(w), d);
    MulMono(q + 1, Pow2(w), d);
    Distribute(q, 1, d);
  }

  /** Try smaller tables up to `z` bits: `f0` patterns of `k - w` bits are without a code. */
  method TryWider(cd: Code, w: nat, k: nat, f0: nat, z: nat, ghost whole: bool) returns (j: nat)
    requires cd.Valid() && w < k <= cd.g && z <= cd.g - w && f0 > 0 && (k == cd.g ==> z <= k - w)
    requires whole ==> w == 0 && z == cd.g && f0 == Pow2(k) - First(cd.c, k) - cd.c[k]
    ensures j == Widen(cd.c, k, k - w, f0, z)
    ensures k - w < j && (j <= z || j == k - w + 1)
    ensures whole && k < cd.g ==> j == cd.g
  {
    hide Low, Shr, Rev, Offset, Widen;
    var f, xp: nat := f0, k;
    j := k - w + 1;
    while j < z
      invariant k - w < j && (j <= z || j == k - w + 1) && xp == w + j - 1
      invariant f > 0
      invariant whole ==> f == Pow2(j - 1) - First(cd.c, j - 1) - cd.c[j - 1]
      invariant Widen(cd.c, xp, j - 1, f, z) == Widen(cd.c, k, k - w, f0, z)
      decreases z - j
    {
      WidenStep(cd.c, xp, j - 1, f, z);
      f := 2 * f;
      xp := xp + 1;
      if f <= cd.c[xp] {
        NotFull(cd, xp);
        return;
      }
      f := f - cd.c[xp];
      j := j + 1;
    }
    WidenEnd(cd.c, xp, j - 1, f, z);
  }

  /** Compute minimum size table less than or equal to `m` bits, for codes of `k` bits of
      which `a + 1` are left, below a prefix of `w` bits.  The limit `m` is exceeded where the
      shortest table possible already does, or is as wide and has room to spare: the source
      counts up before it compares. */
  method ChooseWidth(cd: Code, el: nat, m: nat, w: nat, k: nat, a: nat, ghost q: nat) returns (j: nat)
    requires cd.Valid() && w < k <= cd.g && a < cd.c[k]
    requires First(cd.c, k) + cd.c[k] - a - 1 == q * Pow2(k - w)
    ensures 1 <= j && w + j <= cd.g
    ensures w < el ==> w + j <= el
    ensures w == 0 && First(cd.c, k) == 0 && a + 1 == cd.c[k] && m >= cd.g && (el == 0 || el >= cd.g) ==> j == cd.g
    ensures j > m <==> (k - w > m || (k - w == m && Pow2(k - w) > a + 1)) && (el <= w || el - w > m)
    ensures j == TableWidth(cd.c, cd.g, el, m, w, k, a)
  {
    hide Low, Shr, Rev, Offset, Widen, First, Pow2;
    var z := if cd.g - w > m then m else cd.g - w;
    j := k - w;
    ghost var whole := w == 0 && First(cd.c, k) == 0 && a + 1 == cd.c[k] && m >= cd.g;
    NotFull(cd, k);
    if Pow2(j) > a + 1 {
      if k == cd.g {
        LastLengthRoom(cd, w, q, cd.c[k] - a - 1);
      }
      j := TryWider(cd, w, k, Pow2(j) - (a + 1), z, whole);
    }
    if w + j > el && w < el {
      j := el - w;
    }
  }

  // ----- opening a table

  /** The tables after a new blank one of `M` has been linked into slot `j` of table `top`. */
  function LinkIn(tables: seq<seq<Huft>>, top: nat, j: nat, ent: Huft, z: nat): seq<seq<Huft>>
    requires top < |tables| && j < |tables[top]|
  {
    tables[top := tables[top][j := ent]] + [seq(z, _ => Blank())]
  }

  lemma FirstTable(cd: Code, el: nat, j: nat)
    requires cd.Valid() && 1 <= j <= cd.g && (0 < el ==> j <= el)
    ensures var tables, metas := [seq(Pow2(j), _ => Blank())], [Meta(0, 0, j)];
            Shaped(cd, el, tables, metas) && WrittenBelow(cd, el, tables, metas, 0)
            && Stacked(cd, tables, metas, [0], [0], [j], 0, 0, 0)
  {
    RevZero(cd.g);
  }

  /** The slot that the source computes for the link is the one whose pattern is the prefix
      of the new table. */
  lemma LinkSlot(m: Meta, i: nat)
    requires m.pr == Low(m.w, i) && i < Pow2(m.w + m.l)
    ensures var j := Shr(Low(m.w + m.l, i), m.w);
            j == Low(m.l, Shr(i, m.w)) && j < Pow2(m.l) && Pattern(m, j) == i
  {
    LowSmall(m.w + m.l, i);
    ShrLow(m.w, m.l, i);
    LowSplit(m.w, m.l, i);
  }

  lemma LinkShaped(cd: Code, el: nat, tables: seq<seq<Huft>>, metas: seq<Meta>, top: nat, i: nat, l: nat, ent: Huft)
    requires cd.Valid() && Shaped(cd, el, tables, metas) && top < |metas|
    requires metas[top].pr == Low(metas[top].w, i) && i < Pow2(metas[top].w + metas[top].l)
    requires var M := Meta(metas[top].w + metas[top].l, i, l);
             MetaOK(cd, el, M) && ent.e == 16 + l && ent.b == metas[top].l && ent.t == |metas|
    ensures var j := Shr(Low(metas[top].w + metas[top].l, i), metas[top].w);
            && j < |tables[top]|
            && Shaped(cd, el, LinkIn(tables, top, j, ent, Pow2(l)), metas + [Meta(metas[top].w + metas[top].l, i, l)])
  {
    var m := metas[top];
    var M := Meta(m.w + m.l, i, l);
    var j := Shr(Low(m.w + m.l, i), m.w);
    assert MetaOK(cd, el, m) && |tables[top]| == Pow2(m.l);
    LinkSlot(m, i);
    var tables': seq<seq<Huft>>, metas': seq<Meta> := LinkIn(tables, top, j, ent, Pow2(l)), metas + [M];
    forall id: nat, jj: nat | 0 <= id < |metas'| && 0 <= jj < |tables'[id]|
      ensures tables'[id][jj].b == 0 || SlotOK(cd, metas', id, jj, tables'[id][jj])
    {
      if id < |metas| {
        if id == top && jj == j {
          assert LinkOK(metas', id, jj, ent);
        } else {
          assert tables'[id][jj] == tables[id][jj];
          assert tables[id][jj].b == 0 || SlotOK(cd, metas, id, jj, tables[id][jj]);
        }
      }
    }
  }

  /** No slot of a freshly opened table begins before the frontier. */
  lemma FreshLo(g: nat, m: Meta, j: nat)
    requires m.w + m.l <= g && m.pr < Pow2(m.w)
    ensures Rev(g, m.pr) <= Lo(g, m, j)
  {
    RevPad(m.w, g - m.w, m.pr);
    Join(m.w, m.pr, j);
    var x := Pattern(m, j);
    RevSplit(m.w, m.l, x);
    RevLow(m.w, m.w, x);
    Pow2Add(m.l, g - m.w - m.l);
    var D := Pow2(g - m.w - m.l);
    MulAssoc(Rev(m.w, m.pr), Pow2(m.l), D);
    MulMono(Rev(m.w, x) * Pow2(m.l), Rev(m.w + m.l, x), D);
  }

  lemma LinkWritten(cd: Code, el: nat, tables: seq<seq<Huft>>, metas: seq<Meta>, top: nat, j: nat, ent: Huft,
                    M: Meta, frontier: nat)
    requires cd.Valid() && Shaped(cd, el, tables, metas) && WrittenBelow(cd, el, tables, metas, frontier)
    requires top < |metas| && j < |tables[top]| && ent.b > 0
    requires MetaOK(cd, el, M) && Rev(cd.g, M.pr) == frontier
    requires Shaped(cd, el, LinkIn(tables, top, j, ent, Pow2(M.l)), metas + [M])
    ensures WrittenBelow(cd, el, LinkIn(tables, top, j, ent, Pow2(M.l)), metas + [M], frontier)
  {
    var tables': seq<seq<Huft>>, metas': seq<Meta> := LinkIn(tables, top, j, ent, Pow2(M.l)), metas + [M];
    forall id: nat, jj: nat | 0 <= id < |metas'| && 0 <= jj < |tables'[id]| && Lo(cd.g, metas'[id], jj) < frontier
      ensures tables'[id][jj].b > 0
    {
      if id == |metas| {
        FreshLo(cd.g, M, jj);
      } else {
        assert MetaOK(cd, el, metas[id]);
        assert tables'[id][jj] == tables[id][jj] || tables'[id][jj] == ent;
      }
    }
  }

  lemma LinkStacked(cd: Code, tables: seq<seq<Huft>>, metas: seq<Meta>,
                    u: seq<nat>, x: seq<nat>, l: seq<nat>, w: nat, i: nat, frontier: nat, j: nat, ent: Huft, M: Meta)
    requires cd.Valid() && Stacked(cd, tables, metas, u, x, l, w, i, frontier)
    requires var top := u[|u| - 1];
             && M.w == metas[top].w + metas[top].l <= cd.g && 1 <= metas[top].l
             && M.pr == i < Pow2(M.w)
             && j == Shr(M.pr, metas[top].w) && j < |tables[top]| && Pattern(metas[top], j) == M.pr
             && ent.b > 0
    ensures Stacked(cd, LinkIn(tables, u[|u| - 1], j, ent, Pow2(M.l)), metas + [M],
                    u + [|metas|], x + [i], l + [M.l], M.w, i, frontier)
  {
    var top := u[|u| - 1];
    LowSmall(M.w, i);
    var tables': seq<seq<Huft>>, metas': seq<Meta> := LinkIn(tables, top, j, ent, Pow2(M.l)), metas + [M];
    var u', x', l' := u + [|metas|], x + [i], l + [M.l];
    assert Linked(tables', metas', top, |metas|);
    forall m | 0 <= m < |u'| - 1
      ensures LinkedUp(tables', metas', u', m)
    {
      if m < |u| - 1 {
        assert LinkedUp(tables, metas, u, m);
      }
    }
    forall m | 0 <= m < |u'|
      ensures Level(cd.g, metas', u', x', l', i, m)
    {
      if m < |u| {
        assert Level(cd.g, metas, u, x, l, i, m);
      }
    }
    forall id | 0 <= id < |metas'| && id !in u'
      ensures Closed(cd.g, metas'[id], frontier)
    {
      assert id !in u && id != |metas|;
      assert Closed(cd.g, metas[id], frontier);
    }
  }

  // ----- entering a code word

  /** Slots `start`, `start + 2^n`, `start + 2 * 2^n`, ... of a table all get `r`. */
  method FillSlots(q: seq<Huft>, start: nat, n: nat, r: Huft) returns (q': seq<Huft>)
    requires start < Pow2(n)
    ensures |q'| == |q|
    ensures forall j :: 0 <= j < |q| ==> q'[j] == if Low(n, j) == start then r else q[j]
  {
    hide Low, Shr;
    q' := q;
    var j, f := start, Pow2(n);
    ghost var t := 0;
    forall jj: nat | jj < start
      ensures Low(n, jj) == jj
    {
      LowSmall(n, jj);
    }
    while j < |q'|
      invariant |q'| == |q|
      invariant 0 <= t && j == start + f * t
      invariant forall jj :: 0 <= jj < |q| ==>
        q'[jj] == if Low(n, jj) == start && jj < j then r else q[jj]
      decreases |q| - j
    {
      Join(n, start, t);
      forall jj | j < jj < j + f && jj < |q|
        ensures Low(n, jj) != start
      {
        NextSlot(n, start, t, jj);
      }
      q' := q'[j := r];
      j := j + f;
      t := t + 1;
      assert j == start + f * t by { Distribute(t - 1, 1, f); }
    }
  }

  lemma NextSlot(n: nat, start: nat, t: nat, j: nat)
    requires start < Pow2(n) && start + Pow2(n) * t < j < start + Pow2(n) * t + Pow2(n)
    ensures Low(n, j) != start
  {
    hide Low, Shr, Pow2;
    LowShr(n, j);
    var s := Shr(j, n);
    if s <= t {
      MulMono(s, t, Pow2(n));
    } else {
      MulMono(t + 1, s, Pow2(n));
      Distribute(t, 1, Pow2(n));
    }
  }

  /** A slot lies under the code word `i` of `k` bits exactly when its index does. */
  lemma SlotUnder(m: Meta, k: nat, i: nat, j: nat)
    requires m.w < k <= m.w + m.l && i < Pow2(k) && m.pr == Low(m.w, i)
    ensures Low(k, Pattern(m, j)) == i <==> Low(k - m.w, j) == Shr(i, m.w)
  {
    hide Low, Shr, Pow2;
    Join(m.w, m.pr, j);
    LowSplit(m.w, k - m.w, Pattern(m, j));
    LowShr(m.w, i);
    if Low(k, Pattern(m, j)) == i {
      Join(m.w, m.pr, Low(k - m.w, j));
      Join(m.w, m.pr, Shr(i, m.w));
    }
  }

  lemma FillShaped(cd: Code, el: nat, tables: seq<seq<Huft>>, metas: seq<Meta>, top: nat, k: nat, i: nat, r: Huft, q: seq<Huft>)
    requires cd.Valid() && Shaped(cd, el, tables, metas) && top < |metas|
    requires var m := metas[top];
             && m.w < k <= m.w + m.l && i < Pow2(k) && m.pr == Low(m.w, i)
             && r.b == k - m.w && !r.Link()
             && First(cd.c, k) <= Rev(k, i) && cd.Means(r, k, Rev(k, i) - First(cd.c, k))
    requires |q| == |tables[top]|
    requires forall j :: 0 <= j < |q| ==> q[j] == if Low(k - metas[top].w, j) == Shr(i, metas[top].w) then r else tables[top][j]
    ensures Shaped(cd, el, tables[top := q], metas)
  {
    var m := metas[top];
    var tables': seq<seq<Huft>> := tables[top := q];
    forall id: nat, j: nat | 0 <= id < |metas| && 0 <= j < |tables'[id]|
      ensures tables'[id][j].b == 0 || SlotOK(cd, metas, id, j, tables'[id][j])
    {
      if id == top && Low(k - m.w, j) == Shr(i, m.w) {
        SlotUnder(m, k, i, j);
        RevLow(k, k, Pattern(m, j));
        assert cd.Decodes(r, m.w, Pattern(m, j));
      } else {
        assert tables'[id][j] == tables[id][j];
        assert tables[id][j].b == 0 || SlotOK(cd, metas, id, j, tables[id][j]);
      }
    }
  }

  lemma PatternBound(m: Meta, j: nat)
    requires m.pr < Pow2(m.w) && j < Pow2(m.l)
    ensures Pattern(m, j) < Pow2(m.w + m.l)
    ensures Low(m.w, Pattern(m, j)) == m.pr && Shr(Pattern(m, j), m.w) == j
  {
    hide Low, Shr, Pow2;
    Join(m.w, m.pr, j);
    Pow2Add(m.w, m.l);
    MulMono(j + 1, Pow2(m.l), Pow2(m.w));
    Distribute(j, 1, Pow2(m.w));
  }

  lemma LoIsRev(g: nat, m: Meta, j: nat)
    requires m.w + m.l <= g && m.pr < Pow2(m.w) && j < Pow2(m.l)
    ensures Lo(g, m, j) == Rev(g, Pattern(m, j))
    ensures Lo(g, m, j) < Hi(g, m)
  {
    var P := Pattern(m, j);
    PatternBound(m, j);
    RevPad(m.w + m.l, g - m.w - m.l, P);
    RevLow(m.w, m.w, P);
    RevUnder(m.w, g - m.w, P, Rev(m.w, m.pr));
  }

  /** Stepping past a `k`-bit code does not leave any shorter prefix of it. */
  lemma StepInside(g: nat, k: nat, w: nat, i: nat)
    requires w <= k <= g
    ensures (Rev(k, i) + 1) * Pow2(g - k) <= (Rev(w, i) + 1) * Pow2(g - w)
  {
    RevSplit(w, k - w, i);
    Distribute(Rev(w, i), 1, Pow2(k - w));
    Pow2Add(k - w, g - k);
    MulAssoc(Rev(w, i) + 1, Pow2(k - w), Pow2(g - k));
    MulMono(Rev(k, i) + 1, (Rev(w, i) + 1) * Pow2(k - w), Pow2(g - k));
  }

  /** A slot whose first word falls in the range of the code word `i` of `k` bits lies under
      it, if its table reaches that far; otherwise it leads towards it. */
  lemma SlotInRange(g: nat, m: Meta, j: nat, k: nat, i: nat, n: nat)
    requires m.w + m.l <= g && m.pr < Pow2(m.w) && j < Pow2(m.l)
    requires n <= k <= g && n <= m.w + m.l && i < Pow2(k)
    requires Rev(g, i) <= Lo(g, m, j) < Rev(g, i) + Pow2(g - k)
    ensures Low(n, Pattern(m, j)) == Low(n, i)
  {
    hide Low, Shr, Rev, Pow2, Lo;
    LoIsRev(g, m, j);
    var P := Pattern(m, j);
    RevPad(k, g - k, i);
    Distribute(Rev(k, i), 1, Pow2(g - k));
    StepInside(g, k, n, i);
    RevUnder(n, g - n, i, Rev(n, i));
    RevUnder(n, g - n, P, Rev(n, i));
    RevInjective(n, P, i);
  }

  /** Once the slots under the code word `i` are filled, everything below the next code word
      has been written: any other slot in that range is a link to a table on the stack. */
  lemma FillWritten(cd: Code, el: nat, tables: seq<seq<Huft>>, metas: seq<Meta>,
                    u: seq<nat>, x: seq<nat>, l: seq<nat>, w: nat, i: nat, frontier: nat,
                    k: nat, r: Huft, q: seq<Huft>)
    requires cd.Valid() && Shaped(cd, el, tables, metas) && WrittenBelow(cd, el, tables, metas, frontier)
    requires Stacked(cd, tables, metas, u, x, l, w, i, frontier)
    requires w < k <= w + l[|u| - 1] && k <= cd.g && i < Pow2(k) && r.b > 0
    requires var top := u[|u| - 1];
             && |q| == |tables[top]|
             && (forall j :: 0 <= j < |q| ==> q[j] == if Low(k - w, j) == Shr(i, w) then r else tables[top][j])
             && Shaped(cd, el, tables[top := q], metas)
    ensures WrittenBelow(cd, el, tables[u[|u| - 1] := q], metas, frontier + Pow2(cd.g - k))
  {
    var top := u[|u| - 1];
    var tables': seq<seq<Huft>> := tables[top := q];
    var next := frontier + Pow2(cd.g - k);
    assert metas[top].w == w && metas[top].pr == Low(w, i);
    hide Low, Shr, Rev, Pow2, Lo, Hi, Pattern, Level, LinkedUp, Linked, SlotOK, First, Offset, Stacked;
    forall id: nat, j: nat | id < |metas| && j < |tables'[id]| && Lo(cd.g, metas[id], j) < next
      ensures tables'[id][j].b > 0
    {
      var m := metas[id];
      assert MetaOK(cd, el, m) && |tables'[id]| == Pow2(m.l);
      if frontier <= Lo(cd.g, m, j) {
        if id == top {
          TopSlot(cd, m, j, k, i);
        } else {
          OtherSlot(cd, el, tables, metas, u, x, l, w, i, frontier, k, id, j);
        }
      } else {
        assert tables[id][j].b > 0;
      }
    }
  }

  lemma OtherSlot(cd: Code, el: nat, tables: seq<seq<Huft>>, metas: seq<Meta>,
                  u: seq<nat>, x: seq<nat>, l: seq<nat>, w: nat, i: nat, frontier: nat,
                  k: nat, id: nat, j: nat)
    requires cd.Valid() && Stacked(cd, tables, metas, u, x, l, w, i, frontier)
    requires w < k <= cd.g && i < Pow2(k) && id < |metas| && id != u[|u| - 1]
    requires MetaOK(cd, el, metas[id]) && j < |tables[id]| == Pow2(metas[id].l)
    requires frontier <= Lo(cd.g, metas[id], j) < frontier + Pow2(cd.g - k)
    ensures tables[id][j].b > 0
  {
    hide Low, Shr, Rev, Pow2, Lo, Hi, Pattern, LinkedUp, First, Offset;
    if id in u {
      var n: nat :| n < |u| && u[n] == id;
      assert Level(cd.g, metas, u, x, l, i, n);
      StackSlot(cd, tables, metas, u, x, l, w, i, frontier, k, n, j);
    } else {
      assert Closed(cd.g, metas[id], frontier);
      LoIsRev(cd.g, metas[id], j);
    }
  }

  lemma TopSlot(cd: Code, m: Meta, j: nat, k: nat, i: nat)
    requires m.w < k <= m.w + m.l <= cd.g && m.pr == Low(m.w, i) && j < Pow2(m.l) && i < Pow2(k)
    requires Rev(cd.g, i) <= Lo(cd.g, m, j) < Rev(cd.g, i) + Pow2(cd.g - k)
    ensures Low(k - m.w, j) == Shr(i, m.w)
  {
    SlotInRange(cd.g, m, j, k, i, k);
    LowSmall(k, i);
    SlotUnder(m, k, i, j);
  }

  /** Lower down the stack, the only slot in the range of the code word is the link upwards. */
  lemma StackSlot(cd: Code, tables: seq<seq<Huft>>, metas: seq<Meta>,
                  u: seq<nat>, x: seq<nat>, l: seq<nat>, w: nat, i: nat, frontier: nat,
                  k: nat, m: nat, j: nat)
    requires cd.Valid() && Stacked(cd, tables, metas, u, x, l, w, i, frontier)
    requires w < k <= cd.g && i < Pow2(k) && m < |u| - 1
    requires Level(cd.g, metas, u, x, l, i, m)
    requires metas[u[m]].w + metas[u[m]].l <= cd.g && metas[u[m]].pr < Pow2(metas[u[m]].w) && j < Pow2(metas[u[m]].l)
    requires frontier <= Lo(cd.g, metas[u[m]], j) < frontier + Pow2(cd.g - k)
    ensures j < |tables[u[m]]| && tables[u[m]][j].b > 0
  {
    hide Low, Rev, Pow2, Lo, Hi, First, Offset;
    var n := m + 1;
    assert LinkedUp(tables, metas, u, m);
    assert Level(cd.g, metas, u, x, l, i, n);
    var M, T := metas[u[m]], metas[u[n]];
    WidthUp(cd, tables, metas, u, x, l, w, i, frontier, n);
    SlotInRange(cd.g, M, j, k, i, T.w);
    PatternBound(M, j);
    LowSmall(T.w, Pattern(M, j));
  }

  lemma {:induction false} WidthUp(cd: Code, tables: seq<seq<Huft>>, metas: seq<Meta>,
                u: seq<nat>, x: seq<nat>, l: seq<nat>, w: nat, i: nat, frontier: nat, m: nat)
    requires cd.Valid() && Stacked(cd, tables, metas, u, x, l, w, i, frontier)
    requires m < |u| && Level(cd.g, metas, u, x, l, i, m)
    ensures metas[u[m]].w <= w
    decreases |u| - m
  {
    if m < |u| - 1 {
      assert LinkedUp(tables, metas, u, m);
      assert Level(cd.g, metas, u, x, l, i, m + 1);
      WidthUp(cd, tables, metas, u, x, l, w, i, frontier, m + 1);
    }
  }

  // ----- the next code word

  /** Backwards increment the `k`-bit code `i`: clear ones from the top bit down, then set
      the first zero.  Read in reverse this adds one, and wraps to zero at the end. */
  method BackIncrement(i: nat, k: nat) returns (i': nat)
    requires 1 <= k && i < Pow2(k)
    ensures Rev(k, i) + 1 < Pow2(k) ==> i' < Pow2(k) && Rev(k, i') == Rev(k, i) + 1
    ensures Rev(k, i) + 1 == Pow2(k) ==> i' == 0
  {
    RevEmpty(i);
    hide Shr, Rev;
    i' := i;
    var n := k;  // the source's j is 1 << (n - 1), and 0 once n is 0
    while n > 0 && Bit(i', n - 1)
      invariant n <= k && i' < Pow2(n)
      invariant Rev(k, i) + 1 == (Rev(n, i') + 1) * Pow2(k - n)
      decreases n
    {
      ClearTop(n, k, i');
      i' := i' - Pow2(n - 1);
      n := n - 1;
    }
    if n > 0 {
      SetTop(n, k, i');
      i' := i' + Pow2(n - 1);
    }
  }

  lemma RevEmpty(i: nat)
    ensures Pow2(0) == 1 && forall x: nat :: Rev(0, x) == 0
  {
  }

  lemma ClearTop(n: nat, k: nat, i: nat)
    requires 0 < n <= k && i < Pow2(n) && Bit(i, n - 1)
    ensures Pow2(n - 1) <= i && i - Pow2(n - 1) < Pow2(n - 1)
    ensures (Rev(n, i) + 1) * Pow2(k - n) == (Rev(n - 1, i - Pow2(n - 1)) + 1) * Pow2(k - n + 1)
  {
    BitTop(n - 1, i);
    RevTop(n - 1, i);
    var a := Rev(n - 1, i - Pow2(n - 1)) + 1;
    assert Rev(n, i) + 1 == 2 * a;
    assert Pow2(k - n + 1) == 2 * Pow2(k - n);
    MulAssoc(2, a, Pow2(k - n));
    MulAssoc(a, 2, Pow2(k - n));
  }

  lemma SetTop(n: nat, k: nat, i: nat)
    requires 0 < n <= k && i < Pow2(n) && !Bit(i, n - 1)
    ensures i + Pow2(n - 1) < Pow2(k)
    ensures Rev(k, i + Pow2(n - 1)) == (Rev(n, i) + 1) * Pow2(k - n)
  {
    var m := n - 1;
    var i' := i + Pow2(m);
    assert Pow2(m + 1) == 2 * Pow2(m);
    hide Low, Shr, Rev, Pow2, Bit;
    BitTop(m, i);
    BitTop(m, i');
    RevTop(m, i);
    RevTop(m, i');
    RevPad(n, k - n, i');
    Pow2Mono(n, k);
  }

  // ----- backing up over finished tables

  /** A table whose pattern the next code word no longer matches is finished. */
  lemma Finished(g: nat, m: Meta, k: nat, i: nat, i': nat)
    requires m.w < k <= g && i < Pow2(k) && m.pr == Low(m.w, i)
    requires Rev(g, i') == Rev(g, i) + Pow2(g - k)
    requires Low(m.w, i') != m.pr
    ensures Hi(g, m) == Rev(g, i') && (i' < Pow2(g) ==> i' < Pow2(m.w))
  {
    hide Low, Rev, Shr, Pow2;
    RevLow(m.w, m.w, i);
    RevUnder(m.w, g - m.w, i, Rev(m.w, i));
    RevUnder(m.w, g - m.w, i', Rev(m.w, i));
    if Rev(m.w, i') == Rev(m.w, i) {
      RevInjective(m.w, i', i);
    }
    RevPad(k, g - k, i);
    Distribute(Rev(k, i), 1, Pow2(g - k));
    StepInside(g, k, m.w, i);
    if i' < Pow2(g) {
      RevAligned(m.w, g - m.w, i', Rev(m.w, i) + 1);
    }
  }

  lemma {:induction false} WidthBelow(cd: Code, tables: seq<seq<Huft>>, metas: seq<Meta>,
                u: seq<nat>, x: seq<nat>, l: seq<nat>, w: nat, i: nat, frontier: nat, m: nat, n: nat)
    requires cd.Valid() && Stacked(cd, tables, metas, u, x, l, w, i, frontier)
    requires m <= n < |u| && Level(cd.g, metas, u, x, l, i, m) && Level(cd.g, metas, u, x, l, i, n)
    ensures metas[u[m]].w <= metas[u[n]].w
    decreases n - m
  {
    if m < n {
      assert LinkedUp(tables, metas, u, m);
      assert Level(cd.g, metas, u, x, l, i, m + 1);
      WidthBelow(cd, tables, metas, u, x, l, w, i, frontier, m + 1, n);
    }
  }

  /** Lower patterns on the stack are prefixes of higher ones. */
  lemma PrefixDown(cd: Code, tables: seq<seq<Huft>>, metas: seq<Meta>,
                   u: seq<nat>, x: seq<nat>, l: seq<nat>, w: nat, i: nat, frontier: nat, m: nat, n: nat, i': nat)
    requires cd.Valid() && Stacked(cd, tables, metas, u, x, l, w, i, frontier)
    requires m <= n < |u| && Level(cd.g, metas, u, x, l, i, n) && Low(metas[u[n]].w, i') == x[n]
    ensures Level(cd.g, metas, u, x, l, i', m)
  {
    assert Level(cd.g, metas, u, x, l, i, m);
    WidthBelow(cd, tables, metas, u, x, l, w, i, frontier, m, n);
    LowLow(metas[u[m]].w, metas[u[n]].w, i);
    LowLow(metas[u[m]].w, metas[u[n]].w, i');
  }

  /** The tables above level `n` of the stack are finished. */
  ghost predicate ClosedAbove(g: nat, metas: seq<Meta>, u: seq<nat>, n: nat, frontier: nat) {
    forall m :: n <= m < |u| ==> u[m] < |metas| && Closed(g, metas[u[m]], frontier)
  }

  lemma {:induction false} InTail(u: seq<nat>, n: nat, id: nat) returns (m: nat)
    requires n <= |u| && id in u && id !in u[..n]
    ensures n <= m < |u| && u[m] == id
  {
    assert u == u[..n] + u[n..];
    var t :| 0 <= t < |u[n..]| && u[n..][t] == id;
    m := n + t;
  }

  /** The stack as it is once the finished tables have been dropped. */
  lemma Popped(cd: Code, tables: seq<seq<Huft>>, metas: seq<Meta>,
               u: seq<nat>, x: seq<nat>, l: seq<nat>, w: nat, i: nat, frontier: nat,
               n: nat, i': nat, next: nat)
    requires cd.Valid() && Stacked(cd, tables, metas, u, x, l, w, i, frontier)
    requires n < |u| && Level(cd.g, metas, u, x, l, i, n) && Low(metas[u[n]].w, i') == x[n]
    requires i' < Pow2(cd.g) && Rev(cd.g, i') == next && frontier <= next
    requires ClosedAbove(cd.g, metas, u, n + 1, next)
    ensures Stacked(cd, tables, metas, u[..n + 1], x[..n + 1], l[..n + 1], metas[u[n]].w, i', next)
  {
    hide Low, Shr, Rev, Pow2, Lo, Hi, Pattern, Linked, First, Offset;
    var u', x', l' := u[..n + 1], x[..n + 1], l[..n + 1];
    forall m | 0 <= m < |u'|
      ensures Level(cd.g, metas, u', x', l', i', m)
    {
      PrefixDown(cd, tables, metas, u, x, l, w, i, frontier, m, n, i');
    }
    forall id | 0 <= id < |metas| && id !in u'
      ensures Closed(cd.g, metas[id], next)
    {
      if id in u {
        var m := InTail(u, n + 1, id);
      } else {
        assert Closed(cd.g, metas[id], frontier);
      }
    }
    forall m | 0 <= m < |u'| - 1
      ensures LinkedUp(tables, metas, u', m)
    {
      assert LinkedUp(tables, metas, u, m);
    }
  }

  /** A stack table that the next code word does not match is not the root, and is finished. */
  lemma PopOne(cd: Code, tables: seq<seq<Huft>>, metas: seq<Meta>,
               u: seq<nat>, x: seq<nat>, l: seq<nat>, w: nat, i: nat, frontier: nat,
               h: nat, k: nat, i': nat)
    requires cd.Valid() && Stacked(cd, tables, metas, u, x, l, w, i, frontier)
    requires w < k <= cd.g && i < Pow2(k) && h < |u| && Level(cd.g, metas, u, x, l, i, h)
    requires Low(metas[u[h]].w, i') != x[h]
    ensures h > 0 && Level(cd.g, metas, u, x, l, i, h - 1) && metas[u[h]].w == metas[u[h - 1]].w + l[h - 1]
    ensures Rev(cd.g, i') == frontier + Pow2(cd.g - k) && i' < Pow2(cd.g) ==>
              && i' < Pow2(metas[u[h]].w)
              && (ClosedAbove(cd.g, metas, u, h + 1, Rev(cd.g, i')) ==> ClosedAbove(cd.g, metas, u, h, Rev(cd.g, i')))
  {
    hide Pow2, Rev, Shr, First, Offset;
    WidthUp(cd, tables, metas, u, x, l, w, i, frontier, h);
    if Rev(cd.g, i') == frontier + Pow2(cd.g - k) && i' < Pow2(cd.g) {
      Finished(cd.g, metas[u[h]], k, i, i');
    }
    if h > 0 {
      assert LinkedUp(tables, metas, u, h - 1);
      assert Level(cd.g, metas, u, x, l, i, h - 1);
    }
  }

  /** Back up over finished tables: `while ((i & ((1 << w) - 1)) != x[h]) w -= l[--h]`.
      The next code word is `i'`; past the last one there is nothing left to keep. */
  method BackUp(cd: Code, ghost tables: seq<seq<Huft>>, ghost metas: seq<Meta>,
                u: seq<nat>, x: seq<nat>, l: seq<nat>, w: nat, ghost i: nat, ghost frontier: nat,
                ghost k: nat, i': nat)
    returns (h: nat, w': nat)
    requires cd.Valid() && Stacked(cd, tables, metas, u, x, l, w, i, frontier)
    requires w < k <= w + l[|u| - 1] && k <= cd.g && i < Pow2(k)
    requires frontier + Pow2(cd.g - k) < Pow2(cd.g) ==>
               i' < Pow2(k) && Rev(cd.g, i') == frontier + Pow2(cd.g - k)
    ensures h < |u| && w' <= w
    ensures frontier + Pow2(cd.g - k) < Pow2(cd.g) ==>
              && Stacked(cd, tables, metas, u[..h + 1], x[..h + 1], l[..h + 1], w', i', frontier + Pow2(cd.g - k))
              && i' < Pow2(w' + l[h])
  {
    hide Low, Rev, Shr, Pow2, Hi;
    h, w' := |u| - 1, w;
    ghost var next := frontier + Pow2(cd.g - k);
    ghost var more := next < Pow2(cd.g);
    if more {
      Pow2Mono(k, cd.g);
      Pow2Mono(k, w + l[h]);
    }
    while Low(w', i') != x[h]
      invariant h < |u| && Level(cd.g, metas, u, x, l, i, h) && w' == metas[u[h]].w <= w
      invariant more ==> ClosedAbove(cd.g, metas, u, h + 1, Rev(cd.g, i'))
      invariant more ==> i' < Pow2(w' + l[h])
      decreases h
    {
      PopOne(cd, tables, metas, u, x, l, w, i, frontier, h, k, i');
      h := h - 1;
      w' := w' - l[h];
    }
    if more {
      Popped(cd, tables, metas, u, x, l, w, i, frontier, h, i', next);
    }
  }
}
