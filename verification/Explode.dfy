/** explode: the meaning of an imploded stream, and the decoder that refines it.

  The source has four copies of the decoding loop, `explode_lit8`, `explode_lit4`,
  `explode_nolit8` and `explode_nolit4`.  They differ in two things only: whether literals
  are coded, and whether seven or six low distance bits are sent plain.  Here those two are
  parameters, of the meaning and of the decoder. */
module Explode {
  import opened Wrappers
  import opened Bits
  import opened BitStream
  import opened Canonical
  import opened HuftTable
  import opened HuftCode
  import opened Huffman
  import opened TableReader
  import opened OnesReader
  import opened Runs
  import W = Window

  datatype Mode = Mode(coded: bool, low: nat) {
    ghost predicate Valid() { low == 6 || low == 7 }

    /** The shortest match. */
    function Shortest(): nat { if coded then 3 else 2 }
  }

  /** The general purpose flags of the member: bit 2 says that literals are coded, bit 1 that
      distances go up to 8K. */
  function ModeOf(flags: nat): (m: Mode)
    ensures m.low == 6 || m.low == 7
  {
    Mode(flags / 4 % 2 == 1, if flags / 2 % 2 == 1 then 7 else 6)
  }

  // ----- the meaning

  /** The symbol whose complemented code is at `p`. */
  ghost function CodeAt(lens: seq<nat>, input: seq<Byte>, p: nat): (r: Option<nat>)
    ensures r.Some? ==> r.value < |lens| && lens[r.value] > 0
  {
    if exists s: nat :: HasCode(lens, s, Flip(input), p)
    then var s: nat :| HasCode(lens, s, Flip(input), p); Some(s)
    else None
  }

  const ExtraBits: nat := 8

  /** Length symbol 63 has eight extra bits. */
  ghost function LengthAt(input: seq<Byte>, mode: Mode, ll: seq<nat>, p: nat): (r: Option<(nat, nat)>)
    ensures r.Some? ==> r.value.0 >= 2
  {
    match CodeAt(ll, input, p)
    case None => None
    case Some(s) =>
      var q := p + ll[s];
      if s == 63 then Some((mode.Shortest() + 63 + PeekOnes(input, q, ExtraBits), q + ExtraBits))
      else Some((mode.Shortest() + s, q))
  }

  /** The distance for high part `s` and low bits `d`. */
  function Distance(mode: Mode, s: nat, d: nat): (r: nat)
    ensures r >= 1
  {
    1 + d + Pow2(mode.low) * s
  }

  /** A match at `p`, after its flag bit: its length, its distance, and the position after it. */
  ghost function MatchAt(input: seq<Byte>, mode: Mode, ll: seq<nat>, dl: seq<nat>, p: nat): (r: Option<(nat, nat, nat)>)
    ensures r.Some? ==> r.value.0 >= 2 && r.value.1 >= 1
  {
    match CodeAt(dl, input, p + mode.low)
    case None => None
    case Some(s) =>
      match LengthAt(input, mode, ll, p + mode.low + dl[s])
      case None => None
      case Some((n, q)) => Some((n, Distance(mode, s, PeekOnes(input, p, mode.low)), q))
  }

  /** A literal at `p`, after its flag bit. */
  ghost function LiteralAt(input: seq<Byte>, mode: Mode, lb: seq<nat>, p: nat): (r: Option<(Byte, nat)>) {
    if !mode.coded then
      Pow2Of8();
      Some((PeekOnes(input, p, ExtraBits), p + ExtraBits))
    else match CodeAt(lb, input, p)
      case None => None
      case Some(c) => if c < 256 then Some((c, p + lb[c])) else None
  }

  /** The history after `h`, and the position, once at least `s` more bytes have been made.
      Matches reach back into `h`, whatever its front is. */
  ghost function Meaning(input: seq<Byte>, mode: Mode, lb: seq<nat>, ll: seq<nat>, dl: seq<nat>, p: nat, s: int, h: seq<Byte>)
    : (r: Option<(seq<Byte>, nat)>)
    ensures r.Some? ==> |h| + (if s > 0 then s else 0) <= |r.value.0|
    ensures r.Some? ==> h <= r.value.0
    decreases if s > 0 then s else 0
  {
    if s <= 0 then Some((h, p))
    else if BitOnes(input, p) == 1 then
      match LiteralAt(input, mode, lb, p + 1)
      case None => None
      case Some((c, q)) => Meaning(input, mode, lb, ll, dl, q, s - 1, h + [c])
    else
      match MatchAt(input, mode, ll, dl, p + 1)
      case None => None
      case Some((n, dist, q)) =>
        if dist > |h| then None
        else Meaning(input, mode, lb, ll, dl, q, s - n, W.CopyMatch(h, dist, n))
  }

  /** No match is longer than this. */
  function Longest(mode: Mode): nat { mode.Shortest() + 63 + 255 }

  lemma MatchLength(input: seq<Byte>, mode: Mode, ll: seq<nat>, dl: seq<nat>, p: nat)
    requires |ll| == 64 && MatchAt(input, mode, ll, dl, p).Some?
    ensures MatchAt(input, mode, ll, dl, p).value.0 <= Longest(mode)
  {
    Pow2Of8();
    hide CodeAt, Pow2, Flip;
    forall q: nat ensures PeekOnes(input, q, ExtraBits) < Pow2(8) {
      OnesBound(input, q, ExtraBits);
    }
  }

  lemma OnesBound(input: seq<Byte>, p: nat, n: nat)
    ensures PeekOnes(input, p, n) < Pow2(n)
  {
  }

  /** The output is as long as asked, but for what the last match overshoots. */
  lemma {:induction false} Overshoot(input: seq<Byte>, mode: Mode, lb: seq<nat>, ll: seq<nat>, dl: seq<nat>, p: nat, s: int, h: seq<Byte>)
    requires |ll| == 64
    ensures var r := Meaning(input, mode, lb, ll, dl, p, s, h);
            r.Some? && s > 0 ==> |h| + s <= |r.value.0| < |h| + s + Longest(mode)
    decreases if s > 0 then s else 0
  {
    hide LiteralAt, MatchAt, BitOnes, W.CopyMatch, Longest;
    if s > 0 && Meaning(input, mode, lb, ll, dl, p, s, h).Some? {
      LongestIs(mode);
      if BitOnes(input, p) == 1 {
        var (c, q) := LiteralAt(input, mode, lb, p + 1).value;
        Overshoot(input, mode, lb, ll, dl, q, s - 1, h + [c]);
      } else {
        var (n, dist, q) := MatchAt(input, mode, ll, dl, p + 1).value;
        MatchLength(input, mode, ll, dl, p + 1);
        Overshoot(input, mode, lb, ll, dl, q, s - n, W.CopyMatch(h, dist, n));
      }
    }
  }

  lemma LongestIs(mode: Mode)
    ensures Longest(mode) > 300
  {
  }

  // ----- looking codes up

  /** `NEEDBITS(l) t = q + (~b & mask_bits[l])`. */
  method Fetch(rd: OnesReader, q: seq<Huft>, l: nat) returns (ent: Huft)
    requires rd.Valid() && l <= 16 && Peek(Flip(rd.input), rd.Pos(), l) < |q|
    modifies rd
    ensures rd.Valid() && rd.Pos() == old(rd.Pos()) && l <= rd.bk && ent == q[Peek(Flip(rd.input), rd.Pos(), l)]
  {
    hide Peek, Flip, PeekOnes, Low, Pow2;
    rd.NeedBits(l);
    var v := rd.Flipped(l);
    ent := q[v];
  }

  /** The look-up loop, on the complemented stream. */
  method LookUp(rd: OnesReader, t: seq<seq<Huft>>, bl: nat,
                ghost b: seq<nat>, ghost s: nat, ghost d: seq<nat>, ghost e: seq<nat>)
    returns (ok: bool, ent: Huft)
    requires rd.Valid() && Decoder(b, s, d, e, t, bl) && MaxLen(b) <= 16
    modifies rd
    ensures rd.Valid()
    ensures var f := Look(Flip(rd.input), b, t, bl, old(rd.Pos()));
            && (ok <==> f.ent.e != 99)
            && (ok ==> ent == f.ent && ent.e <= 16 && rd.Pos() == old(rd.Pos()) + f.dropped + ent.b)
  {
    hide Decoder, OnPath, Look, Peek, Pow2, MaxLen, Walk, After, Low, Shr, Flip, PeekOnes;
    ghost var p, n, flip := rd.Pos(), MaxLen(b), Flip(rd.input);
    ghost var f := Look(flip, b, t, bl, p);
    ghost var id: nat, l: nat, gone: nat := 0, bl, 0;
    PathStart(flip, b, s, d, e, t, bl, p);
    PathNext(flip, p, n, f, t, bl, id, l, gone);
    PathAsked(flip, p, n, f, t, bl, id, l, gone);
    ent := Fetch(rd, t[0], bl);
    while ent.e > 16
      invariant rd.Valid() && rd.Pos() == p + gone && l <= rd.bk
      invariant OnPath(flip, p, n, f, t, bl, id, l, gone)
      invariant id < |t| && Peek(flip, p + gone, l) < |t[id]| && ent == t[id][Peek(flip, p + gone, l)]
      decreases |t| - id
    {
      PathNext(flip, p, n, f, t, bl, id, l, gone);
      if ent.e == 99 {
        return false, ent;
      }
      rd.DumpBits(ent.b);
      gone, id, l := gone + l, ent.t, ent.e - 16;
      PathNext(flip, p, n, f, t, bl, id, l, gone);
      PathAsked(flip, p, n, f, t, bl, id, l, gone);
      ent := Fetch(rd, t[ent.t], ent.e - 16);
    }
    PathNext(flip, p, n, f, t, bl, id, l, gone);
    rd.DumpBits(ent.b);
    ok := true;
  }

  lemma PathAsked(input: seq<Byte>, p: nat, n: nat, f: Found, t: seq<seq<Huft>>, bl: nat, id: nat, l: nat, gone: nat)
    requires OnPath(input, p, n, f, t, bl, id, l, gone)
    ensures l <= n
  {
    hide Peek, Walk, Pow2;
    PathNext(input, p, n, f, t, bl, id, l, gone);
  }

  /** In a complete code some symbol's code is always there, and its entry is found. */
  lemma LookCode(input: seq<Byte>, b: seq<nat>, s: nat, d: seq<nat>, e: seq<nat>, t: seq<seq<Huft>>, bl: nat, p: nat)
    returns (sym: nat)
    requires Decoder(b, s, d, e, t, bl) && Covers(b)
    ensures var f := Look(Flip(input), b, t, bl, p);
            && CodeAt(b, input, p) == Some(sym) && sym < |b| && b[sym] == f.dropped + f.ent.b
            && f.ent.e == SymbolE(s, e, sym) && f.ent.n == SymbolN(s, d, sym)
  {
    hide Walk, Peek, CodeOf, Rev, SymbolE, SymbolN, MaxLen, Flip;
    var flip := Flip(input);
    var x := Peek(flip, p, MaxLen(b));
    assert Resolves(b, s, d, e, x, Look(flip, b, t, bl, p));
    assert Assigned(b, x);
    sym :| Starts(b, sym, x);
    LengthAtMost(b, sym);
    HasCodeStarts(b, sym, flip, p, MaxLen(b));
    var sym' := CodeAt(b, input, p).value;
    assert HasCode(b, sym', flip, p);
    LengthAtMost(b, sym');
    HasCodeStarts(b, sym', flip, p, MaxLen(b));
    PrefixFree(b, sym, sym', x);
  }

  /** Tables for a complete code in which every symbol is usable. */
  ghost predicate Usable(b: seq<nat>, s: nat, d: seq<nat>, e: seq<nat>, t: seq<seq<Huft>>, bl: nat) {
    && Decoder(b, s, d, e, t, bl) && Covers(b) && MaxLen(b) <= 16
    && forall sym :: 0 <= sym < |b| ==> SymbolE(s, e, sym) != 99
  }

  /** Read one symbol.  With usable tables the "invalid code" return of the source is idle. */
  method ReadSymbol(rd: OnesReader, t: seq<seq<Huft>>, bl: nat,
                    ghost b: seq<nat>, ghost s: nat, ghost d: seq<nat>, ghost e: seq<nat>)
    returns (ok: bool, ent: Huft, ghost sym: nat)
    requires rd.Valid() && Usable(b, s, d, e, t, bl)
    modifies rd
    ensures ok && rd.Valid() && sym < |b|
    ensures CodeAt(b, rd.input, old(rd.Pos())) == Some(sym) && rd.Pos() == old(rd.Pos()) + b[sym]
    ensures ent.e == SymbolE(s, e, sym) && ent.n == SymbolN(s, d, sym)
  {
    hide Decoder, Look, MaxLen, CodeAt, SymbolE, SymbolN, Peek, Flip, PeekOnes, Low, Pow2, Covers;
    sym := LookCode(rd.input, b, s, d, e, t, bl, rd.Pos());
    ok, ent := LookUp(rd, t, bl, b, s, d, e);
  }

  // ----- the tables of the source

  /** `cplen2` is 2, 3, ..., 65 and `cplen3` is 3, 4, ..., 66. */
  function Cplen(mode: Mode): seq<nat> { seq(64, i => mode.Shortest() + i) }

  /** `extra`: eight extra bits for symbol 63. */
  function Extra(): seq<nat> { seq(64, i => if i == 63 then 8 else 0) }

  /** `cpdist4` is 1, 65, 129, ... and `cpdist8` is 1, 129, 257, ... */
  function Cpdist(mode: Mode): seq<nat> {
    seq(64, i requires 0 <= i < 64 => Distance(mode, i, 0))
  }

  lemma SymbolEntry(mode: Mode, s: nat)
    requires s < 64
    ensures SymbolE(0, Extra(), s) == (if s == 63 then 8 else 0)
    ensures SymbolN(0, Cplen(mode), s) == mode.Shortest() + s
    ensures SymbolN(0, Cpdist(mode), s) == 1 + Pow2(mode.low) * s
  {
  }

  lemma LiteralEntry(s: nat)
    requires s < 256
    ensures SymbolE(256, [], s) == 16 && SymbolN(256, [], s) == s
  {
  }

  lemma DistanceBound(mode: Mode, s: nat, d: nat)
    requires mode.Valid() && s < 64 && d < Pow2(mode.low)
    ensures Distance(mode, s, d) <= 8192
  {
    assert Pow2(6) == 64 && Pow2(7) == 128;
  }

  /** Window size, a power of two no smaller than any distance. */
  const WSIZE: nat := 0x8000

  // ----- the decoding loops

  /** Get coded or plain literal. */
  method ReadLiteral(rd: OnesReader, mode: Mode, tb: seq<seq<Huft>>, bb: nat, ghost lb: seq<nat>)
    returns (ok: bool, c: Byte)
    requires rd.Valid() && (mode.coded ==> Usable(lb, 256, [], [], tb, bb) && |lb| == 256)
    modifies rd
    ensures ok && rd.Valid() && LiteralAt(rd.input, mode, lb, old(rd.Pos())) == Some((c, rd.Pos()))
  {
    hide Usable, CodeAt, PeekOnes, Low, Pow2, SymbolE, SymbolN;
    ok, c := true, 0;
    if mode.coded {
      var ent; ghost var sym;
      ok, ent, sym := ReadSymbol(rd, tb, bb, lb, 256, [], []);
      LiteralEntry(sym);
      c := ent.n;
    } else {
      Pow2Of8();
      OnesBound(rd.input, rd.Pos(), ExtraBits);
      var v := rd.ReadBits(ExtraBits);
      c := v;
    }
  }

  /** Get distance low bits, coded distance high bits, coded length and its extra bits. */
  method ReadMatch(rd: OnesReader, mode: Mode, tl: seq<seq<Huft>>, td: seq<seq<Huft>>, bl: nat, bd: nat,
                   ghost ll: seq<nat>, ghost dl: seq<nat>)
    returns (ok: bool, n: nat, dist: nat)
    requires rd.Valid() && mode.Valid() && |ll| == 64 && |dl| == 64
    requires Usable(ll, 0, Cplen(mode), Extra(), tl, bl) && Usable(dl, 0, Cpdist(mode), Extra(), td, bd)
    modifies rd
    ensures ok && rd.Valid() && MatchAt(rd.input, mode, ll, dl, old(rd.Pos())) == Some((n, dist, rd.Pos()))
    ensures n >= 2 && 1 <= dist <= 8192
  {
    hide Usable, CodeAt, PeekOnes, Low, Pow2, SymbolE, SymbolN, Cplen, Cpdist, Extra;
    OnesBound(rd.input, rd.Pos(), mode.low);
    var d := rd.ReadBits(mode.low);
    var ent; ghost var ds;
    ok, ent, ds := ReadSymbol(rd, td, bd, dl, 0, Cpdist(mode), Extra());
    SymbolEntry(mode, ds);
    DistanceBound(mode, ds, d);
    dist := d + ent.n;
    ghost var ls;
    ok, ent, ls := ReadSymbol(rd, tl, bl, ll, 0, Cplen(mode), Extra());
    SymbolEntry(mode, ls);
    n := ent.n;
    if ent.e != 0 {  // get length extra bits
      var v := rd.ReadBits(ExtraBits);
      n := n + v;
    }
  }

  /** The bytes that the stream up to `pos` touches. */
  function BytesUsed(pos: nat): nat { (pos + 7) / 8 }

  lemma Compensate(next: nat, bk: nat)
    requires bk <= 8 * next
    ensures next - bk / 8 == BytesUsed(8 * next - bk)
  {
    var q := next - bk / 8;
    assert 8 * next - bk + 7 == 8 * q + (7 - bk % 8);
  }

  /** The four decoding loops.  `r` is 5 if the member was not used up exactly: bits taken
      past its end count, whole bytes still in the bit buffer do not. */
  method ExplodeLoop(rd: OnesReader, win: W.Window, mode: Mode,
                     tb: seq<seq<Huft>>, tl: seq<seq<Huft>>, td: seq<seq<Huft>>, bb: nat, bl: nat, bd: nat,
                     ucsize: nat, ghost lb: seq<nat>, ghost ll: seq<nat>, ghost dl: seq<nat>)
    returns (r: nat)
    requires rd.Valid() && win.Valid() && win.size >= WSIZE && mode.Valid()
    requires mode.coded ==> Usable(lb, 256, [], [], tb, bb) && |lb| == 256
    requires |ll| == 64 && Usable(ll, 0, Cplen(mode), Extra(), tl, bl)
    requires |dl| == 64 && Usable(dl, 0, Cpdist(mode), Extra(), td, bd)
    modifies rd, win, win.slide
    ensures rd.Valid()
    ensures Meaning(rd.input, mode, lb, ll, dl, old(rd.Pos()), ucsize, old(win.History()))
            == Some((win.pre + win.out, rd.Pos()))
    ensures r == if BytesUsed(rd.Pos()) == |rd.input| then 0 else 5
  {
    hide Usable, LiteralAt, MatchAt, Meaning, PeekOnes, Low, Pow2, W.CopyMatch, W.Hist, Cplen, Cpdist, Extra;
    ghost var m := Meaning(rd.input, mode, lb, ll, dl, rd.Pos(), ucsize, win.History());
    var s: int := ucsize;
    while s > 0   // do until ucsize bytes uncompressed
      invariant rd.Valid() && win.Valid()
      invariant Meaning(rd.input, mode, lb, ll, dl, rd.Pos(), s, win.History()) == m
      decreases s
    {
      ghost var p, h := rd.Pos(), win.History();
      W.RingFacts(win.pre, win.out, win.slide[..], win.w, win.unflushed);
      OnesOne(rd.input, p);
      MeaningStep(rd.input, mode, lb, ll, dl, p, s, h);
      var flag := rd.ReadBits(1);
      var ok;
      if flag == 1 {   // then literal--decode it
        s := s - 1;
        var c;
        ok, c := ReadLiteral(rd, mode, tb, bb, lb);
        win.Put(c);
      } else {         // else distance/length
        var n, dist;
        ok, n, dist := ReadMatch(rd, mode, tl, td, bl, bd, ll, dl);
        s := s - n;
        win.Copy(dist, n);
      }
    }
    MeaningEnd(rd.input, mode, lb, ll, dl, rd.Pos(), s, win.History());
    W.HistIs(win.pre, win.out, win.slide[..], win.w);
    win.Flush();
    Compensate(rd.next, rd.bk);
    if |rd.input| - rd.next + rd.bk / 8 != 0 {  // should have read csize bytes
      return 5;
    }
    return 0;
  }

  lemma OnesOne(input: seq<Byte>, p: nat)
    ensures PeekOnes(input, p, 1) == BitOnes(input, p)
  {
    assert PeekOnes(input, p + 1, 0) == 0;
  }

  lemma MeaningEnd(input: seq<Byte>, mode: Mode, lb: seq<nat>, ll: seq<nat>, dl: seq<nat>, p: nat, s: int, h: seq<Byte>)
    requires s <= 0
    ensures Meaning(input, mode, lb, ll, dl, p, s, h) == Some((h, p))
  {
  }

  lemma MeaningStep(input: seq<Byte>, mode: Mode, lb: seq<nat>, ll: seq<nat>, dl: seq<nat>, p: nat, s: int, h: seq<Byte>)
    requires s > 0
    ensures var m := Meaning(input, mode, lb, ll, dl, p, s, h);
            if BitOnes(input, p) == 1 then
              match LiteralAt(input, mode, lb, p + 1)
              case None => true
              case Some((c, q)) => m == Meaning(input, mode, lb, ll, dl, q, s - 1, h + [c])
            else
              match MatchAt(input, mode, ll, dl, p + 1)
              case None => true
              case Some((n, dist, q)) =>
                dist <= |h| ==> m == Meaning(input, mode, lb, ll, dl, q, s - n, W.CopyMatch(h, dist, n))
  {
    hide BitOnes, LiteralAt, MatchAt, W.CopyMatch;
  }

  // ----- get_tree

  /** Byte `q` of the member; EOF is -1, whose low eight bits are ones. */
  function ByteOnes(input: seq<Byte>, q: nat): Byte { if q < |input| then input[q] else 255 }

  /** `i` length/count pairs from byte `q` on, after the lengths `acc`: exactly `n` lengths, and
      where they end.  Both numbers of a pair are 1 to 16. */
  function Pairs(input: seq<Byte>, q: nat, i: nat, acc: seq<nat>, n: nat): (r: Option<(seq<nat>, nat)>)
    requires |acc| <= n
    ensures r.Some? ==> |r.value.0| == n
    decreases i
  {
    if i == 0 then if |acc| == n then Some((acc, q)) else None
    else
      var b := ByteOnes(input, q);
      var run := Repeat(b % 16 + 1, b / 16 + 1);
      if |acc| + |run| > n then None
      else Pairs(input, q + 1, i - 1, acc + run, n)
  }

  /** The bit lengths for a code: the first byte is the number of pairs less one. */
  function Tree(input: seq<Byte>, q: nat, n: nat): (r: Option<(seq<nat>, nat)>)
    ensures r.Some? ==> |r.value.0| == n
  {
    Pairs(input, q + 1, ByteOnes(input, q) + 1, [], n)
  }

  /** One length/count pair. */
  lemma PairsStep(input: seq<Byte>, q: nat, i: nat, acc: seq<nat>, n: nat)
    requires |acc| <= n && i > 0
    ensures var b := ByteOnes(input, q);
            var run := Repeat(b % 16 + 1, b / 16 + 1);
            if |acc| + |run| > n then Pairs(input, q, i, acc, n).None?
            else Pairs(input, q, i, acc, n) == Pairs(input, q + 1, i - 1, acc + run, n)
  {
  }

  lemma PairsEnd(input: seq<Byte>, q: nat, acc: seq<nat>, n: nat)
    requires |acc| <= n
    ensures Pairs(input, q, 0, acc, n) == if |acc| == n then Some((acc, q)) else None
  {
  }

  /** `get_tree`: get the bit lengths for a code representation.  4 is an error in the data.
      After EOF for a first byte the source counts down from zero, that is, for ever; `left`
      is the number of pairs that the meaning has to go. */
  method GetTree(rd: OnesReader, n: nat) returns (r: nat, l: seq<nat>)
    requires rd.Valid() && rd.bk == 0 && 16 <= n <= 256
    modifies rd
    ensures rd.Valid() && rd.bk == 0
    ensures r == 0 || r == 4
    ensures var o := Tree(rd.input, old(rd.next), n);
            && (r == 0 <==> o.Some?)
            && (r == 0 ==> o.value == (l, rd.next))
  {
    hide Pairs, PeekOnes, Low, Pow2, Repeat;
    ghost var o := Tree(rd.input, rd.next, n);
    var list := new nat[n];
    l := [];
    var c := rd.NextByte();
    var i: int := c + 1;  // length/count pairs to read
    ghost var left: nat := if c >= 0 then c + 1 else 256;
    ghost var eof := c < 0;
    assert list[..0] == [];
    var k: nat := 0;
    while true
      invariant rd.Valid() && rd.bk == 0 && k <= n && left >= 1
      invariant if eof then i <= 0 && rd.next >= |rd.input| && k + 16 * left == 4096 else i == left
      invariant Pairs(rd.input, rd.next, left, list[..k], n) == o
      decreases n - k
    {
      PairsStep(rd.input, rd.next, left, list[..k], n);
      var j := rd.NextByte();
      var b := (if j < 0 then 255 else j) % 16 + 1;   // bits in code (1..16)
      var m := (if j < 0 then 255 else j) / 16 + 1;   // codes with those bits (1..16)
      if k + m > n {
        return 4, l;
      }
      Fill(list, k, b, m);
      k := k + m;
      i := i - 1;
      left := left - 1;
      if i == 0 {
        break;
      }
    }
    PairsEnd(rd.input, rd.next, list[..k], n);
    l := list[..];
    assert k == n ==> list[..k] == l;
    r := if k != n then 4 else 0;
  }

  // ----- explode

  ghost predicate TreeLengths(l: seq<nat>) {
    forall i :: 0 <= i < |l| ==> 1 <= l[i] <= 16
  }

  lemma {:induction false} PairsLengths(input: seq<Byte>, q: nat, i: nat, acc: seq<nat>, n: nat)
    requires |acc| <= n && TreeLengths(acc)
    ensures var r := Pairs(input, q, i, acc, n); r.Some? ==> TreeLengths(r.value.0)
    decreases i
  {
    if i > 0 {
      PairsStep(input, q, i, acc, n);
      var b := ByteOnes(input, q);
      var run := Repeat(b % 16 + 1, b / 16 + 1);
      if |acc| + |run| <= n {
        PairsLengths(input, q + 1, i - 1, acc + run, n);
      }
    }
  }

  /** With more than two symbols and no length zero, a code that `huft_build` returns 0 for is
      complete. */
  lemma TreeComplete(l: seq<nat>)
    requires TreeLengths(l) && |l| > 2 && KraftClass(l) == 0
    ensures Kraft(l) == Pow2(16) && MaxLen(l) > 0
  {
    hide *;
    TreeOnes(l);
    KraftNil();
    ClassIs(l);
    if MaxLen(l) == 1 {
      KraftRun([], 1, |l|);
      Pow2Unfold(16);
      MulMono(3, |l|, Pow2(15));
    }
  }

  lemma KraftNil()
    ensures Kraft([]) == 0
  {
  }

  lemma TreeOnes(l: seq<nat>)
    requires TreeLengths(l) && |l| > 0
    ensures MaxLen(l) > 0
    ensures MaxLen(l) == 1 ==> l == [] + Repeat(1, |l|)
  {
    hide MaxLen;
    LengthAtMost(l, 0);
    if MaxLen(l) == 1 {
      forall i: nat | i < |l| ensures l[i] == 1 {
        LengthAtMost(l, i);
      }
    }
  }

  lemma TreeMax(l: seq<nat>)
    requires TreeLengths(l) && 0 < |l| <= N_MAX
    ensures Lengths(l) && 0 < MaxLen(l) <= 16
  {
    assert MaxLen(l) >= l[0];
  }

  /** Build a code for explode; anything but a complete one is an error. */
  method BuildCode(l: seq<nat>, s: nat, d: seq<nat>, e: seq<nat>, m: nat) returns (r: nat, t: seq<seq<Huft>>, bl: nat)
    requires TreeLengths(l) && 2 < |l| <= N_MAX && ExtraList(e)
    requires forall sym :: 0 <= sym < |l| ==> SymbolE(s, e, sym) != 99
    ensures r <= 2 && (r == 0 <==> KraftClass(l) == 0)
    ensures r == 0 ==> Usable(l, s, d, e, t, bl)
  {
    hide Decoder, Covers, Kraft, MaxLen, SymbolE, TreeLengths, Lengths, ExtraList;
    TreeMax(l);
    r, t, bl := HuftBuild(l, s, d, e, m);
    if r == 0 {
      TreeComplete(l);
    }
  }

  /** A tree that makes a complete code. */
  ghost function CodeTree(input: seq<Byte>, q: nat, n: nat): (r: Option<(seq<nat>, nat)>)
    ensures r.Some? ==> |r.value.0| == n
  {
    match Tree(input, q, n)
    case None => None
    case Some((l, q')) => if KraftClass(l) == 0 then Some((l, q')) else None
  }

  /** Read the bit lengths of a code and build it. */
  method ReadCode(rd: OnesReader, n: nat, s: nat, d: seq<nat>, e: seq<nat>, m: nat)
    returns (r: nat, t: seq<seq<Huft>>, bl: nat, ghost l: seq<nat>)
    requires rd.Valid() && rd.bk == 0 && 16 <= n <= 256 && ExtraList(e)
    requires forall sym :: 0 <= sym < n ==> SymbolE(s, e, sym) != 99
    modifies rd
    ensures rd.Valid() && rd.bk == 0 && (r <= 2 || r == 4)
    ensures var o := CodeTree(rd.input, old(rd.next), n);
            && (r == 0 <==> o.Some?)
            && (r == 0 ==> o.value == (l, rd.next) && |l| == n && Usable(l, s, d, e, t, bl))
  {
    hide Usable, Tree, KraftClass, SymbolE, ExtraList, PeekOnes, Low, Pow2, TreeLengths;
    var list;
    t, bl, l := [], 0, [];
    ghost var q := rd.next;
    r, list := GetTree(rd, n);
    if r == 0 {
      l := list;
      TreeIsLengths(rd.input, q, n);
      r, t, bl := BuildCode(list, s, d, e, m);
    }
  }

  lemma TreeIsLengths(input: seq<Byte>, q: nat, n: nat)
    ensures var r := Tree(input, q, n); r.Some? ==> TreeLengths(r.value.0)
  {
    PairsLengths(input, q + 1, ByteOnes(input, q) + 1, [], n);
  }

  /** The prehistory of explode: zeros. */
  function Zeros(): seq<Byte> { seq(WSIZE, _ => 0) }

  /** The meaning of a member: up to three trees, then the stream of literals and matches,
      after a window full of zeros. */
  ghost function Exploded(input: seq<Byte>, mode: Mode, ucsize: nat): Option<(seq<Byte>, nat)> {
    match (if mode.coded then CodeTree(input, 0, 256) else Some(([], 0)))
    case None => None
    case Some((lb, q)) =>
      match CodeTree(input, q, 64)
      case None => None
      case Some((ll, q')) =>
        match CodeTree(input, q', 64)
        case None => None
        case Some((dl, q'')) => Meaning(input, mode, lb, ll, dl, 8 * q'', ucsize, Zeros())
  }

  lemma EntriesOK(mode: Mode)
    ensures ExtraList(Extra()) && ExtraList([])
    ensures forall sym :: 0 <= sym < 64 ==> SymbolE(0, Extra(), sym) != 99
    ensures forall sym :: 0 <= sym < 256 ==> SymbolE(256, [], sym) != 99
  {
  }

  /** What `explode` owes its caller: the bytes that the member means, and a return of 0 or 5,
      exactly when it means something; 0 exactly when the member is also used up. */
  ghost predicate Refines(input: seq<Byte>, mode: Mode, ucsize: nat, r: nat, out: seq<Byte>) {
    match Exploded(input, mode, ucsize)
    case None => r == 1 || r == 2 || r == 4
    case Some((h, pos)) => h == Zeros() + out && r == if BytesUsed(pos) == |input| then 0 else 5
  }

  /** `explode`: explode an imploded compressed stream. */
  method Explode(input: seq<Byte>, slide: array<Byte>, flags: nat, ucsize: nat) returns (r: nat, out: seq<Byte>)
    requires slide.Length == WSIZE
    modifies slide
    ensures Refines(input, ModeOf(flags), ucsize, r, out)
  {
    hide Usable, CodeTree, Meaning, ExtraList, SymbolE, PeekOnes, Low, Pow2, Extra, Cplen, Cpdist, W.Hist, ModeOf;
    var mode := ModeOf(flags);
    EntriesOK(mode);
    var rd := new OnesReader(input);
    var win := new W.Window.Zeroed(slide);
    out := [];
    var tb, tl, td, bb, bl, bd; ghost var lb, ll, dl;
    tb, bb, lb := [], 0, [];
    if mode.coded {
      r, tb, bb, lb := ReadCode(rd, 256, 256, [], [], 9);
      if r != 0 {
        return;
      }
    }
    r, tl, bl, ll := ReadCode(rd, 64, 0, Cplen(mode), Extra(), 7);
    if r != 0 {
      return;
    }
    r, td, bd, dl := ReadCode(rd, 64, 0, Cpdist(mode), Extra(), if |input| > 200000 then 8 else 7);
    if r != 0 {
      return;
    }
    r := ExplodeLoop(rd, win, mode, tb, tl, td, bb, bl, bd, ucsize, lb, ll, dl);
    out := win.out;
  }
}
