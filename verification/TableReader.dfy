/** The table-driven look-up that `inflate_codes` does twice per symbol, and what it reads in
  terms of the canonical code. */
module TableReader {
  import opened Wrappers
  import opened Bits
  import opened BitStream
  import opened Canonical
  import opened HuftTable
  import opened HuftWidth
  import opened Huffman
  import R = BitReader

  lemma {:induction false} Pow2Injective(a: nat, b: nat)
    requires Pow2(a) == Pow2(b)
    ensures a == b
    decreases a + b
  {
    if a > 0 && b > 0 {
      Pow2Injective(a - 1, b - 1);
    }
  }

  /** The walk for the stream at position `p`, on as many bits as the longest code has. */
  ghost function Look(input: seq<Byte>, b: seq<nat>, t: seq<seq<Huft>>, bl: nat, p: nat): Found {
    Walk(t, 0, bl, Peek(input, p, MaxLen(b)))
  }

  /** The walk from a later table, seen from `gone` bits earlier. */
  function After(f: Found, gone: nat): Found {
    Found(f.ent, gone + f.dropped, gone + f.asked)
  }

  /** The look-up that ends at `f` has dropped `gone` bits and is at table `id` of `l` bits. */
  ghost predicate OnPath(input: seq<Byte>, p: nat, n: nat, f: Found, t: seq<seq<Huft>>, bl: nat, id: nat, l: nat, gone: nat) {
    && WellLinked(t, bl)
    && id < |t| && |t[id]| == Pow2(l)
    && gone <= n <= 16 && !f.ent.Link() && f.dropped + f.ent.b <= f.asked <= n
    && f == After(Walk(t, id, l, Peek(input, p + gone, n - gone)), gone)
  }

  lemma {:induction false} AskedAtLeast(t: seq<seq<Huft>>, bl: nat, id: nat, l: nat, x: nat)
    requires WellLinked(t, bl) && id < |t| && |t[id]| == Pow2(l)
    ensures Walk(t, id, l, x).asked >= l
  {
    var ent := t[id][Low(l, x)];
    if ent.Link() {
      assert LinkTo(t, id, ent);
      Pow2Injective(ent.b, l);
    }
  }

  lemma PathStart(input: seq<Byte>, b: seq<nat>, s: nat, d: seq<nat>, e: seq<nat>, t: seq<seq<Huft>>, bl: nat, p: nat)
    requires Decoder(b, s, d, e, t, bl)
    ensures |t| > 0 && |t[0]| == Pow2(bl)
    ensures OnPath(input, p, MaxLen(b), Look(input, b, t, bl, p), t, bl, 0, bl, 0)
  {
    var x := Peek(input, p, MaxLen(b));
    assert Resolves(b, s, d, e, x, Walk(t, 0, bl, x));
  }

  /** The entry that the next `l` bits select is where the look-up ends, or a link down. */
  lemma PathNext(input: seq<Byte>, p: nat, n: nat, f: Found, t: seq<seq<Huft>>, bl: nat, id: nat, l: nat, gone: nat)
    requires OnPath(input, p, n, f, t, bl, id, l, gone)
    ensures gone + l <= f.asked <= 16
    ensures id < |t| && Peek(input, p + gone, l) < |t[id]|
    ensures var ent := t[id][Peek(input, p + gone, l)];
            if ent.Link() then
              && ent.b == l && ent.e > 16 && id < ent.t < |t|
              && OnPath(input, p, n, f, t, bl, ent.t, ent.e - 16, gone + l)
            else f.ent == ent && f.dropped == gone && ent.b <= l && f.asked == gone + l
  {
    hide Pow2, Peek, Low, Shr;
    var m := n - gone;
    var x := Peek(input, p + gone, m);
    AskedAtLeast(t, bl, id, l, x);
    PeekLow(input, p + gone, m, l);
    var ent := t[id][Low(l, x)];
    WalkStep(t, id, l, x);
    if ent.Link() {
      assert LinkTo(t, id, ent);
      Pow2Injective(ent.b, l);
      PeekShr(input, p + gone, m, l);
    }
  }

  /** `NEEDBITS(l) t = q + (b & mask_bits[l])`. */
  method Fetch(rd: R.BitReader, q: seq<Huft>, l: nat) returns (ok: bool, ent: Huft)
    requires rd.Valid() && l <= 16 && Peek(rd.input, rd.Pos(), l) < |q|
    modifies rd
    ensures rd.Valid() && rd.Pos() == old(rd.Pos())
    ensures ok <==> rd.Pos() + l <= BitLen(rd.input)
    ensures ok ==> l <= rd.bk && ent == q[Peek(rd.input, rd.Pos(), l)]
    ensures ok ==> rd.next == Max(old(rd.next), ByteBoundary(rd.Pos() + l))
  {
    hide Peek;
    ent := Huft(0, 0, 0, 0);
    ok := rd.NeedBits(l);
    if ok {
      var v := rd.Masked(l);
      ent := q[v];
    }
  }

  /** Looking on from `a + n` for `m` bits, after looking at the `n` bits from `a`. */
  lemma Further(had: nat, a: nat, n: nat, m: nat)
    ensures Max(Max(had, ByteBoundary(a + n)), ByteBoundary(a + n + m)) == Max(had, ByteBoundary(a + n + m))
  {
  }

  /** The look-up loop of the source.  It fails exactly on an invalid code, or if the member
      ends before the last of the bits it asks for. */
  method LookUp(rd: R.BitReader, t: seq<seq<Huft>>, bl: nat,
                ghost b: seq<nat>, ghost s: nat, ghost d: seq<nat>, ghost e: seq<nat>)
    returns (ok: bool, ent: Huft)
    requires rd.Valid() && Decoder(b, s, d, e, t, bl)
    modifies rd
    ensures rd.Valid()
    ensures var f := Look(rd.input, b, t, bl, old(rd.Pos()));
            && (ok <==> f.ent.e != 99 && old(rd.Pos()) + f.asked <= BitLen(rd.input))
            && (ok ==> ent == f.ent && ent.e <= 16 && rd.Pos() == old(rd.Pos()) + f.dropped + ent.b)
            && (ok ==> rd.next == Max(old(rd.next), ByteBoundary(old(rd.Pos()) + f.asked)))
  {
    hide Decoder, OnPath, Look, Peek, Pow2, MaxLen, Walk, After, Low, Shr, BitLen, ByteBoundary, Max;
    ghost var p, n := rd.Pos(), MaxLen(b);
    ghost var f := Look(rd.input, b, t, bl, p);
    ghost var id: nat, l: nat, gone: nat := 0, bl, 0;
    PathStart(rd.input, b, s, d, e, t, bl, p);
    PathNext(rd.input, p, n, f, t, bl, id, l, gone);
    ok, ent := Fetch(rd, t[0], bl);
    while ok && ent.e > 16
      invariant rd.Valid() && rd.Pos() == p + gone
      invariant OnPath(rd.input, p, n, f, t, bl, id, l, gone) && l <= 16
      invariant ok <==> rd.Pos() + l <= BitLen(rd.input)
      invariant id < |t| && Peek(rd.input, p + gone, l) < |t[id]|
      invariant ok ==> l <= rd.bk && ent == t[id][Peek(rd.input, p + gone, l)]
      invariant ok ==> rd.next == Max(old(rd.next), ByteBoundary(p + gone + l))
      decreases |t| - id
    {
      PathNext(rd.input, p, n, f, t, bl, id, l, gone);
      if ent.e == 99 {
        return false, ent;
      }
      rd.DumpBits(ent.b);
      gone, id, l := gone + l, ent.t, ent.e - 16;
      PathNext(rd.input, p, n, f, t, bl, id, l, gone);
      Further(old(rd.next), p + gone - ent.b, ent.b, ent.e - 16);
      ok, ent := Fetch(rd, t[ent.t], ent.e - 16);
    }
    PathNext(rd.input, p, n, f, t, bl, id, l, gone);
    if ok {
      rd.DumpBits(ent.b);
    }
  }

  /** An entry that is not marked invalid was found for the symbol whose code is at `p`. */
  lemma FoundSymbol(input: seq<Byte>, b: seq<nat>, s: nat, d: seq<nat>, e: seq<nat>, t: seq<seq<Huft>>, bl: nat, p: nat)
    returns (sym: nat)
    requires Decoder(b, s, d, e, t, bl)
    requires var f := Look(input, b, t, bl, p); f.ent.e != 99 && p + f.dropped + f.ent.b <= BitLen(input)
    ensures var f := Look(input, b, t, bl, p);
            && Symbol(b, input, p) == Some((sym, p + f.dropped + f.ent.b)) && sym < |b|
            && f.ent.e == SymbolE(s, e, sym) && f.ent.n == SymbolN(s, d, sym)
  {
    hide Walk, Peek, CodeOf, Rev, SymbolE, SymbolN, MaxLen;
    var x := Peek(input, p, MaxLen(b));
    var f := Look(input, b, t, bl, p);
    assert Resolves(b, s, d, e, x, f);
    assert Assigned(b, x);
    sym :| Starts(b, sym, x);
    LengthAtMost(b, sym);
    HasCodeStarts(b, sym, input, p, MaxLen(b));
    SymbolIs(b, sym, input, p);
  }

  lemma LengthAtMost(b: seq<nat>, sym: nat)
    requires sym < |b|
    ensures b[sym] <= MaxLen(b)
  {
  }

  /** What the walk is that finds the symbol whose code is there. */
  lemma LookSymbol(input: seq<Byte>, b: seq<nat>, s: nat, d: seq<nat>, e: seq<nat>, m: nat, t: seq<seq<Huft>>, bl: nat, p: nat)
    requires Decoder(b, s, d, e, t, bl) && Asks(b, m, t, bl) && Symbol(b, input, p).Some?
    ensures var f, sym := Look(input, b, t, bl, p), Symbol(b, input, p).value.0;
            && f.ent.e == SymbolE(s, e, sym) && f.asked == Asked(b, m, sym)
            && Symbol(b, input, p).value.1 == p + f.dropped + f.ent.b <= p + f.asked
            && (sym == 256 ==> f.asked == f.dropped + f.ent.b)
  {
    hide Walk, Peek, CodeOf, Rev, SymbolE, SymbolN, MaxLen, Asked;
    var sym := Symbol(b, input, p).value.0;
    var x := Peek(input, p, MaxLen(b));
    assert Resolves(b, s, d, e, x, Look(input, b, t, bl, p));
    LengthAtMost(b, sym);
    HasCodeStarts(b, sym, input, p, MaxLen(b));
    assert Starts(b, sym, x);
  }

  /** Read one symbol of the code `b`.  This fails exactly if no usable symbol's code is there,
      or if the member ends before the last of the bits asked for; those are not more than the
      code's own if it is end of block. */
  method ReadSymbol(rd: R.BitReader, t: seq<seq<Huft>>, bl: nat,
                    ghost b: seq<nat>, ghost s: nat, ghost d: seq<nat>, ghost e: seq<nat>, ghost m: nat)
    returns (ok: bool, ent: Huft, ghost sym: nat)
    requires rd.Valid() && Decoder(b, s, d, e, t, bl) && Asks(b, m, t, bl)
    modifies rd
    ensures rd.Valid()
    ensures var p := old(rd.Pos());
            var r := Symbol(b, rd.input, p);
            && (ok <==> r.Some? && SymbolE(s, e, r.value.0) != 99 && p + Asked(b, m, r.value.0) <= BitLen(rd.input))
            && (r.Some? && r.value.0 == 256 ==> p + Asked(b, m, 256) == r.value.1)
            && (ok ==>
                 && r == Some((sym, rd.Pos())) && sym < |b|
                 && ent.e == SymbolE(s, e, sym) <= 16 && ent.n == SymbolN(s, d, sym)
                 && rd.next == Max(old(rd.next), ByteBoundary(p + Asked(b, m, sym)))
                 && rd.Pos() <= p + Asked(b, m, sym))
  {
    hide Decoder, Look, MaxLen, Symbol, SymbolE, SymbolN, Peek, Asks, Asked, BitLen, ByteBoundary, Max;
    ghost var p := rd.Pos();
    if Symbol(b, rd.input, p).Some? {
      LookSymbol(rd.input, b, s, d, e, m, t, bl, p);
    }
    LookWithin(rd.input, b, s, d, e, t, bl, p);
    ok, ent := LookUp(rd, t, bl, b, s, d, e);
    sym := 0;
    if ok {
      sym := FoundSymbol(rd.input, b, s, d, e, t, bl, p);
    }
  }

  lemma LookWithin(input: seq<Byte>, b: seq<nat>, s: nat, d: seq<nat>, e: seq<nat>, t: seq<seq<Huft>>, bl: nat, p: nat)
    requires Decoder(b, s, d, e, t, bl)
    ensures var f := Look(input, b, t, bl, p); f.dropped + f.ent.b <= f.asked
  {
    hide Walk, Peek, MaxLen;
    assert Resolves(b, s, d, e, Peek(input, p, MaxLen(b)), Look(input, b, t, bl, p));
  }
}
