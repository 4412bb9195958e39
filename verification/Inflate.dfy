/** inflate: the table-driven decoder, refining the meaning of the stream. */
module Inflate {
  import opened Wrappers
  import opened Bits
  import opened BitStream
  import opened Canonical
  import opened HuftTable
  import opened HuftCode
  import opened HuftWidth
  import opened Huffman
  import opened TableReader
  import opened Rfc1951
  import opened Rfc1951Facts
  import R = BitReader
  import W = Window

  const WSIZE: nat := 0x8000

  const Cplens: seq<nat> := [
    3, 4, 5, 6, 7, 8, 9, 10, 11, 13, 15, 17, 19, 23, 27, 31,
    35, 43, 51, 59, 67, 83, 99, 115, 131, 163, 195, 227, 258, 0, 0]
  const Cplext: seq<nat> := [
    0, 0, 0, 0, 0, 0, 0, 0, 1, 1, 1, 1, 2, 2, 2, 2,
    3, 3, 3, 3, 4, 4, 4, 4, 5, 5, 5, 5, 0, 99, 99]
  const Cpdist: seq<nat> := [
    1, 2, 3, 4, 5, 7, 9, 13, 17, 25, 33, 49, 65, 97, 129, 193,
    257, 385, 513, 769, 1025, 1537, 2049, 3073, 4097, 6145,
    8193, 12289, 16385, 24577]
  const Cpdext: seq<nat> := [
    0, 0, 0, 0, 1, 1, 2, 2, 3, 3, 4, 4, 5, 5, 6, 6,
    7, 7, 8, 8, 9, 9, 10, 10, 11, 11,
    12, 12, 13, 13]

  // ----- the tables of the source are those of the format

  lemma Powers()
    ensures Pow2(0) == 1 && Pow2(1) == 2 && Pow2(2) == 4 && Pow2(3) == 8 && Pow2(4) == 16 && Pow2(5) == 32
    ensures Pow2(6) == 64 && Pow2(7) == 128 && Pow2(8) == 256 && Pow2(9) == 512 && Pow2(10) == 1024
    ensures Pow2(11) == 2048 && Pow2(12) == 4096 && Pow2(13) == 8192
  {
  }

  lemma LengthTables(i: nat)
    requires i < 29
    ensures Cplext[i] == LengthExtra(i) && Cplens[i] == LengthBase(i)
  {
    Powers();
    hide Pow2;
    if i < 8 {
    } else if i < 12 {
    } else if i < 16 {
    } else if i < 20 {
    } else if i < 24 {
    } else {
    }
  }

  lemma DistTables(i: nat)
    requires i < 30
    ensures Cpdext[i] == DistExtra(i) && Cpdist[i] == DistBase(i)
  {
    Powers();
    hide Pow2;
    if i < 4 {
    } else if i < 6 {
    } else if i < 8 {
    } else if i < 10 {
    } else if i < 12 {
    } else if i < 14 {
    } else if i < 16 {
    } else if i < 18 {
    } else if i < 20 {
    } else if i < 22 {
    } else if i < 24 {
    } else if i < 26 {
    } else if i < 28 {
    } else {
    }
  }

  lemma DistBound(i: nat)
    requires i < 30
    ensures DistBase(i) + Pow2(DistExtra(i)) <= WSIZE + 1
  {
    Powers();
    var e := DistExtra(i);
    Pow2Mono(e, 13);
    hide Pow2;
    if i >= 4 {
      MulMono(2 + i % 2, 3, Pow2(e));
    }
  }

  /** What an entry of the literal/length table says about its symbol. */
  lemma LiteralEntry(s: nat)
    ensures s < 256 ==> SymbolE(257, Cplext, s) == 16 && SymbolN(257, Cplens, s) == s
    ensures s == 256 ==> SymbolE(257, Cplext, s) == 15
    ensures 257 <= s <= 285 ==> SymbolE(257, Cplext, s) == LengthExtra(s - 257) <= 5 && SymbolN(257, Cplens, s) == LengthBase(s - 257)
    ensures s > 285 ==> SymbolE(257, Cplext, s) == 99
  {
    if 257 <= s <= 285 {
      LengthTables(s - 257);
    }
  }

  lemma ExtraSmall(i: nat)
    requires i < 29
    ensures LengthExtra(i) <= 5
  {
  }

  lemma DistanceEntry(s: nat)
    ensures s < 30 ==> SymbolE(0, Cpdext, s) == DistExtra(s) <= 13 && SymbolN(0, Cpdist, s) == DistBase(s)
    ensures s < 30 ==> DistBase(s) + Pow2(DistExtra(s)) <= WSIZE + 1
    ensures s >= 30 ==> SymbolE(0, Cpdext, s) == 99
  {
    if s < 30 {
      DistTables(s);
      DistBound(s);
    }
  }

  lemma ListsOK()
    ensures ExtraList(Cplext) && ExtraList(Cpdext)
  {
  }

  // ----- inflate_codes

  lemma BoundaryMax(a: nat, b: nat)
    ensures ByteBoundary(Max(a, b)) == Max(ByteBoundary(a), ByteBoundary(b))
    ensures a <= b ==> ByteBoundary(a) <= ByteBoundary(b)
  {
  }

  lemma MaxComm(r: nat, a: nat, b: nat, c: nat)
    requires r == Max(a, Max(b, c))
    ensures r == Max(a, Max(c, b))
  {
  }

  lemma TookIs(rd: R.BitReader, peek: nat)
    requires rd.Valid()
    ensures rd.Took(peek) <==> rd.next == Max(ByteBoundary(rd.Pos()), ByteBoundary(peek))
    ensures rd.Took(peek) ==> peek <= BitLen(rd.input)
  {
    BoundaryMax(rd.Pos(), peek);
  }

  /** After reading on from `p` and looking no further than `far`. */
  lemma TookOn(rd: R.BitReader, had: nat, p: nat, peek: nat, far: nat)
    requires rd.Valid() && had == ByteBoundary(Max(p, peek)) && p <= rd.Pos()
    requires rd.next == Max(had, Max(ByteBoundary(rd.Pos()), ByteBoundary(far)))
    ensures rd.Took(Max(peek, far))
  {
  }

  /** After a look-up at `p` that looked as far as `far`. */
  lemma TookSymbol(rd: R.BitReader, had: nat, p: nat, peek: nat, far: nat)
    requires rd.Valid() && had == ByteBoundary(Max(p, peek)) && p <= rd.Pos() <= far
    requires rd.next == Max(had, ByteBoundary(far))
    ensures rd.Took(Max(peek, far)) && (far == rd.Pos() ==> rd.Took(peek))
    ensures rd.Took(peek) ==> peek <= BitLen(rd.input)
  {
  }

  /** After a look-up at `p` that looked as far as `far`, and plain fields behind it. */
  lemma TookRun(rd: R.BitReader, had: nat, mid: nat, p: nat, peek: nat, far: nat)
    requires rd.Valid() && had == ByteBoundary(Max(p, peek)) && p <= rd.Pos()
    requires mid == Max(had, ByteBoundary(far)) && rd.next == Max(mid, ByteBoundary(rd.Pos()))
    ensures rd.Took(Max(peek, far))
  {
  }

  /** After reading plain fields from `p` on. */
  lemma TookPlain(rd: R.BitReader, had: nat, p: nat, peek: nat)
    requires rd.Valid() && had == ByteBoundary(Max(p, peek)) && p <= rd.Pos()
    requires rd.next == Max(had, ByteBoundary(rd.Pos()))
    ensures rd.Took(peek)
  {
  }

  /** Not reading at all takes no byte. */
  lemma TookNone(rd: R.BitReader)
    requires rd.Valid()
    ensures rd.next == Max(rd.next, ByteBoundary(rd.Pos()))
  {
  }

  /** Tables for a literal/length code and a distance code, if there are distances. */
  ghost predicate Tables(ll: seq<nat>, dl: seq<nat>, m: Limits, tl: seq<seq<Huft>>, td: seq<seq<Huft>>, bl: nat, bd: nat) {
    && Decoder(ll, 257, Cplens, Cplext, tl, bl) && Asks(ll, m.l, tl, bl)
    && if MaxLen(dl) == 0 then |ll| <= 257 else Decoder(dl, 0, Cpdist, Cpdext, td, bd) && Asks(dl, m.d, td, bd)
  }

  /** Decode the distance of a match and its extra bits: exactly if there is one and its look-up
      stays within the member. */
  method ReadDistance(rd: R.BitReader, td: seq<seq<Huft>>, bd: nat, ghost dl: seq<nat>, ghost m: nat)
    returns (ok: bool, dist: nat)
    requires rd.Valid() && Decoder(dl, 0, Cpdist, Cpdext, td, bd) && Asks(dl, m, td, bd)
    modifies rd
    ensures rd.Valid()
    ensures var p := old(rd.Pos());
            var far := DistancePeek(rd.input, dl, m, p);
            && (ok <==> DistanceAt(rd.input, dl, p).Some? && far <= BitLen(rd.input))
            && (ok ==> DistanceAt(rd.input, dl, p) == Some((dist, rd.Pos())) && 1 <= dist <= WSIZE)
            && (ok ==> rd.next == Max(old(rd.next), Max(ByteBoundary(far), ByteBoundary(rd.Pos()))))
  {
    hide Decoder, Symbol, SymbolE, SymbolN, Peek, Pow2, MaxLen, DistBase, DistExtra, Asked, Asks, ByteBoundary;
    dist := 0;
    ghost var p := rd.Pos();
    var ent; ghost var sym;
    ok, ent, sym := ReadSymbol(rd, td, bd, dl, 0, Cpdist, Cpdext, m);
    if !ok {
      if Symbol(dl, rd.input, p).Some? {
        DistanceEntry(Symbol(dl, rd.input, p).value.0);
      }
      return;
    }
    DistanceEntry(sym);
    var v;
    ok, v := rd.ReadBits(ent.e);
    dist := ent.n + v;
  }

  /** Get length of block to copy, then its distance. */
  method ReadMatch(rd: R.BitReader, td: seq<seq<Huft>>, bd: nat, ent: Huft, ghost sym: nat, ghost dl: seq<nat>, ghost m: nat)
    returns (ok: bool, n: nat, dist: nat)
    requires rd.Valid() && Decoder(dl, 0, Cpdist, Cpdext, td, bd) && Asks(dl, m, td, bd)
    requires 257 <= sym <= 285 && ent.e == LengthExtra(sym - 257) && ent.n == LengthBase(sym - 257)
    modifies rd
    ensures rd.Valid()
    ensures var p := old(rd.Pos());
            var far := DistancePeek(rd.input, dl, m, p + LengthExtra(sym - 257));
            && (ok <==> Match(rd.input, dl, sym, p).Some? && far <= BitLen(rd.input))
            && (ok ==> Match(rd.input, dl, sym, p) == Some((n, dist, rd.Pos())) && 1 <= n && 1 <= dist <= WSIZE)
            && (ok ==> rd.next == Max(old(rd.next), Max(ByteBoundary(far), ByteBoundary(rd.Pos()))))
  {
    hide Decoder, DistanceAt, DistancePeek, Peek, Pow2, MaxLen, LengthBase, LengthExtra, Asks, ByteBoundary;
    n, dist := 0, 0;
    ExtraSmall(sym - 257);
    var v;
    ok, v := rd.ReadBits(ent.e);
    if ok {
      ghost var q := rd.Pos();
      n := ent.n + v;
      ok, dist := ReadDistance(rd, td, bd, dl, m);
      if ok {
        BoundaryMax(q, rd.Pos());
      }
    }
  }

  /** What a failed look-up of a literal/length symbol means for the block. */
  lemma CodesStuck(input: seq<Byte>, ll: seq<nat>, dl: seq<nat>, m: Limits, p: nat, h: seq<Byte>, peek: nat)
    requires var r := Symbol(ll, input, p);
             || r.None? || SymbolE(257, Cplext, r.value.0) == 99
             || (p + Asked(ll, m.l, r.value.0) > BitLen(input) && r.value.0 != 256)
    ensures var o := Codes(input, ll, dl, m, p, h, peek); o.Fail? || o.peek > BitLen(input)
  {
    hide SymbolE, Symbol, LengthExtra, LengthBase, DistanceAt, DistancePeek, Asked;
    var r := Symbol(ll, input, p);
    if r.Some? {
      LiteralEntry(r.value.0);
    }
  }

  /** A match whose distance cannot be looked up. */
  lemma MatchStuck(input: seq<Byte>, ll: seq<nat>, dl: seq<nat>, m: Limits, p: nat, h: seq<Byte>, peek: nat, s: nat, q: nat)
    requires Symbol(ll, input, p) == Some((s, q)) && 257 <= s <= 285
    requires Match(input, dl, s, q).None? || DistancePeek(input, dl, m.d, q + LengthExtra(s - 257)) > BitLen(input)
    ensures var o := Codes(input, ll, dl, m, p, h, peek); o.Fail? || o.peek > BitLen(input)
  {
    hide Symbol, Match, DistancePeek, Asked, LengthExtra, Codes;
    CodesMatch(input, ll, dl, m, p, h, peek, s, q);
    if Match(input, dl, s, q).Some? {
      var (n, dist, q') := Match(input, dl, s, q).value;
      if 1 <= dist <= |h| {
        var peek' := Max(Max(peek, p + Asked(ll, m.l, s)), DistancePeek(input, dl, m.d, q + LengthExtra(s - 257)));
        PeekGrows(input, ll, dl, m, q', W.CopyMatch(h, dist, n), peek');
      }
    }
  }

  lemma PeekGrows(input: seq<Byte>, ll: seq<nat>, dl: seq<nat>, m: Limits, p: nat, h: seq<Byte>, peek: nat)
    ensures var o := Codes(input, ll, dl, m, p, h, peek); o.Done? ==> peek <= o.peek
  {
  }

  /** `inflate_codes`: decode until an end-of-block code.  Returns 1 for an invalid code or at
      the end of the member; what is taken from the member are the bytes looked at. */
  method InflateCodes(rd: R.BitReader, win: W.Window, tl: seq<seq<Huft>>, td: seq<seq<Huft>>, bl: nat, bd: nat,
                      ghost ll: seq<nat>, ghost dl: seq<nat>, ghost m: Limits, ghost peek: nat)
    returns (r: nat)
    requires rd.Valid() && win.Valid() && win.size >= WSIZE && rd.Took(peek)
    requires Tables(ll, dl, m, tl, td, bl, bd)
    modifies rd, win, win.slide
    ensures rd.Valid() && win.Valid()
    ensures var o := Codes(rd.input, ll, dl, m, old(rd.Pos()), old(win.History()), peek);
            && (r == 0 <==> o.Done? && o.peek <= BitLen(rd.input))
            && (r == 0 ==> o.hist == win.History() && o.pos == rd.Pos() && rd.Took(o.peek))
  {
    hide Decoder, Codes, Match, Symbol, Peek, Pow2, MaxLen, W.CopyMatch, W.Hist, SymbolE, SymbolN, Asks, Asked;
    hide DistancePeek, ByteBoundary, LengthExtra, LengthBase, Max;
    ghost var o := Codes(rd.input, ll, dl, m, rd.Pos(), win.History(), peek);
    ghost var pk := peek;
    while true
      invariant rd.Valid() && win.Valid() && rd.Took(pk)
      invariant Codes(rd.input, ll, dl, m, rd.Pos(), win.History(), pk) == o
      decreases BitLen(rd.input) - rd.Pos()
    {
      ghost var p, h, had := rd.Pos(), win.History(), rd.next;
      W.RingFacts(win.pre, win.out, win.slide[..], win.w, win.unflushed);
      var ok, ent; ghost var sym;
      ok, ent, sym := ReadSymbol(rd, tl, bl, ll, 257, Cplens, Cplext, m.l);
      if !ok {
        CodesStuck(rd.input, ll, dl, m, p, h, pk);
        return 1;
      }
      LiteralEntry(sym);
      ghost var q, far := rd.Pos(), p + Asked(ll, m.l, sym);
      TookSymbol(rd, had, p, pk, far);
      if ent.e == 16 {  // then it's a literal
        CodesLiteral(rd.input, ll, dl, m, p, h, pk, sym, q);
        pk := Max(pk, far);
        win.Put(ent.n);
      } else if ent.e == 15 {  // exit if end of block
        CodesEnd(rd.input, ll, dl, m, p, h, pk, q);
        return 0;
      } else {
        CodesMatch(rd.input, ll, dl, m, p, h, pk, sym, q);
        ghost var x := DistancePeek(rd.input, dl, m.d, q + LengthExtra(sym - 257));
        had := rd.next;
        var n, dist;
        ok, n, dist := ReadMatch(rd, td, bd, ent, sym, dl, m.d);
        if !ok {
          MatchStuck(rd.input, ll, dl, m, p, h, pk, sym, q);
          return 1;
        }
        MatchAfter(rd.input, dl, sym, q);
        MaxComm(rd.next, had, ByteBoundary(x), ByteBoundary(rd.Pos()));
        TookOn(rd, had, q, Max(pk, far), x);
        pk := Max(Max(pk, far), x);
        win.Copy(dist, n);
      }
    }
  }
}
