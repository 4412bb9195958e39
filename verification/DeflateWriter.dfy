/** Writing deflate streams as RFC 1951 describes them, block by block, and reading them back.
  Nothing here is shared with the decoder but the canonical codes. */
module DeflateWriter {
  import opened Wrappers
  import opened Bits
  import opened BitStream
  import opened BitWriter
  import opened Canonical
  import T = HuftTable
  import opened Huffman
  import opened Runs
  import opened HuftWidth
  import opened Rfc1951
  import opened Rfc1951Facts
  import opened Rfc1951Strict
  import opened InflateBlocks
  import W = Window
  import I = Inflate

  // ----- the compressed data of a block

  /** A literal, or a copy: length code `ls` with `lx` in its extra bits, and distance code `ds`
      with `dx`. */
  datatype Token = Literal(b: Byte) | Copy(ls: nat, lx: nat, ds: nat, dx: nat)

  // ----- the tables of section 3.2.5

  /** Extra bits of length code `s`. */
  function LengthBits(s: nat): nat
    requires 257 <= s <= 285
  {
    [0, 0, 0, 0, 0, 0, 0, 0, 1, 1, 1, 1, 2, 2, 2, 2, 3, 3, 3, 3, 4, 4, 4, 4, 5, 5, 5, 5, 0][s - 257]
  }

  /** First length of length code `s`. */
  function FirstLength(s: nat): nat
    requires 257 <= s <= 285
  {
    [3, 4, 5, 6, 7, 8, 9, 10, 11, 13, 15, 17, 19, 23, 27, 31,
     35, 43, 51, 59, 67, 83, 99, 115, 131, 163, 195, 227, 258][s - 257]
  }

  function DistBits(s: nat): nat
    requires s < 30
  {
    [0, 0, 0, 0, 1, 1, 2, 2, 3, 3, 4, 4, 5, 5, 6, 6, 7, 7, 8, 8, 9, 9, 10, 10, 11, 11, 12, 12, 13, 13][s]
  }

  function FirstDist(s: nat): nat
    requires s < 30
  {
    [1, 2, 3, 4, 5, 7, 9, 13, 17, 25, 33, 49, 65, 97, 129, 193, 257, 385, 513, 769, 1025, 1537, 2049, 3073, 4097, 6145,
     8193, 12289, 16385, 24577][s]
  }

  /** The code has words for the token, and the extra bits have room. */
  predicate TokenOk(ll: seq<nat>, dl: seq<nat>, t: Token) {
    match t
    case Literal(b) => b < |ll| && ll[b] > 0
    case Copy(ls, lx, ds, dx) =>
      && 257 <= ls <= 285 && ls < |ll| && ll[ls] > 0 && lx < Pow2(LengthBits(ls))
      && ds < 30 && ds < |dl| && dl[ds] > 0 && dx < Pow2(DistBits(ds))
  }

  function CodeWord(lens: seq<nat>, s: nat): seq<Bit>
    requires s < |lens|
  {
    Word(CodeOf(lens, s), lens[s])
  }

  function TokenBits(ll: seq<nat>, dl: seq<nat>, t: Token): seq<Bit>
    requires TokenOk(ll, dl, t)
  {
    match t
    case Literal(b) => CodeWord(ll, b)
    case Copy(ls, lx, ds, dx) =>
      CodeWord(ll, ls) + Field(lx, LengthBits(ls)) + CodeWord(dl, ds) + Field(dx, DistBits(ds))
  }

  predicate TokensOk(ll: seq<nat>, dl: seq<nat>, ts: seq<Token>) {
    |ll| > 256 && ll[256] > 0 && forall i :: 0 <= i < |ts| ==> TokenOk(ll, dl, ts[i])
  }

  /** The tokens, and the end-of-block code. */
  function TokensBits(ll: seq<nat>, dl: seq<nat>, ts: seq<Token>): seq<Bit>
    requires TokensOk(ll, dl, ts)
  {
    if ts == [] then CodeWord(ll, 256) else TokenBits(ll, dl, ts[0]) + TokensBits(ll, dl, ts[1..])
  }

  function Length(t: Token): nat
    requires t.Copy? && 257 <= t.ls <= 285
  {
    FirstLength(t.ls) + t.lx
  }

  function Distance(t: Token): nat
    requires t.Copy? && t.ds < 30
  {
    FirstDist(t.ds) + t.dx
  }

  /** The output after one more token, if a copy stays within what there is. */
  function Applied(h: seq<Byte>, t: Token): Option<seq<Byte>> {
    match t
    case Literal(b) => Some(h + [b])
    case Copy(ls, lx, ds, dx) =>
      if 257 <= ls <= 285 && ds < 30 && 1 <= Distance(t) <= |h|
      then Some(W.CopyMatch(h, Distance(t), Length(t)))
      else None
  }

  function Replay(h: seq<Byte>, ts: seq<Token>): Option<seq<Byte>>
    decreases |ts|
  {
    if ts == [] then Some(h)
    else match Applied(h, ts[0])
      case None => None
      case Some(h') => Replay(h', ts[1..])
  }

  lemma LengthIs(s: nat)
    requires 257 <= s <= 285
    ensures LengthExtra(s - 257) == LengthBits(s) && LengthBase(s - 257) == FirstLength(s)
  {
    I.LengthTables(s - 257);
    hide LengthExtra, LengthBase;
  }

  lemma DistIs(s: nat)
    requires s < 30
    ensures DistExtra(s) == DistBits(s) && DistBase(s) == FirstDist(s)
  {
    I.DistTables(s);
    hide DistExtra, DistBase;
  }

  // ----- code words

  lemma {:induction false} WeightUp(b: seq<nat>, k: nat, n: nat)
    requires k <= n <= 16
    ensures Weight(b, k) <= Weight(b, n)
    decreases n
  {
    hide Count, Pow2;
    if k < n {
      WeightUp(b, k, n - 1);
    }
  }

  /** Where there is room for a code, every code word fits its length. */
  lemma CodeFits(b: seq<nat>, s: nat)
    requires Kraft(b) <= Pow2(16) && s < |b| && 0 < b[s] <= 16
    ensures CodeOf(b, s) < Pow2(b[s])
  {
    hide *;
    var k := b[s];
    var c := seq(17, i requires 0 <= i < 17 => Count(b, i));
    KraftIsWeight(b);
    WeightUp(b, k, 16);
    WeightIsFirst(b, c, k);
    FirstIsCode(b, c, k);
    Pow2Add(k, 16 - k);
    CountPrefix(b, s, k);
    CodeOfIs(b, s);
    if FirstCode(b, k) + Count(b, k) > Pow2(k) {
      Scale(FirstCode(b, k) + Count(b, k), Pow2(k), Pow2(16 - k));
    }
  }

  lemma {:induction false} FirstIsCode(b: seq<nat>, c: seq<nat>, k: nat)
    requires |c| == 17 && k <= 16 && forall i :: 0 <= i < 17 ==> c[i] == Count(b, i)
    ensures T.First(c, k) == FirstCode(b, k)
    decreases k
  {
    if k > 1 {
      FirstIsCode(b, c, k - 1);
    }
  }

  lemma CodeOfIs(b: seq<nat>, s: nat)
    requires s < |b|
    ensures CodeOf(b, s) == FirstCode(b, b[s]) + Count(b[..s], b[s])
  {
  }

  /** A code is as RFC 1951 allows it. */
  ghost predicate Fits(b: seq<nat>) {
    Kraft(b) <= Pow2(16) && forall i :: 0 <= i < |b| ==> b[i] <= 16
  }

  /** A code word that stands in the stream is read as its symbol. */
  lemma WordRead(input: seq<Byte>, p: nat, b: seq<nat>, s: nat)
    requires Fits(b) && s < |b| && b[s] > 0 && At(input, p, CodeWord(b, s))
    ensures Symbol(b, input, p) == Some((s, p + b[s]))
  {
    hide CodeOf, Kraft, Symbol;
    CodeFits(b, s);
    MsbWord(input, p, CodeOf(b, s), b[s]);
    SymbolIs(b, s, input, p);
  }

  // ----- reading tokens

  lemma DistanceRead(input: seq<Byte>, p: nat, dl: seq<nat>, ds: nat, dx: nat)
    requires Fits(dl) && ds < 30 && ds < |dl| && dl[ds] > 0 && dx < Pow2(DistBits(ds))
    requires At(input, p, CodeWord(dl, ds)) && At(input, p + dl[ds], Field(dx, DistBits(ds)))
    ensures DistanceAt(input, dl, p) == Some((FirstDist(ds) + dx, p + dl[ds] + DistBits(ds)))
  {
    hide At, Fits, Field, CodeWord, Symbol, Pow2, Peek, DistExtra, DistBase, DistBits, FirstDist;
    DistIs(ds);
    WordRead(input, p, dl, ds);
    PeekField(input, p + dl[ds], dx, DistBits(ds));
    AtLength(input, p + dl[ds], Field(dx, DistBits(ds)));
  }

  lemma CopyParts(input: seq<Byte>, p: nat, ll: seq<nat>, dl: seq<nat>, t: Token)
    requires t.Copy? && TokenOk(ll, dl, t) && At(input, p, TokenBits(ll, dl, t))
    ensures At(input, p, CodeWord(ll, t.ls)) && At(input, p + ll[t.ls], Field(t.lx, LengthBits(t.ls)))
    ensures var q := p + ll[t.ls] + LengthBits(t.ls);
            && At(input, q, CodeWord(dl, t.ds)) && At(input, q + dl[t.ds], Field(t.dx, DistBits(t.ds)))
            && p + |TokenBits(ll, dl, t)| == q + dl[t.ds] + DistBits(t.ds)
  {
    hide At, Field, CodeWord, Pow2, LengthBits, DistBits;
    var a, b, c, d := CodeWord(ll, t.ls), Field(t.lx, LengthBits(t.ls)), CodeWord(dl, t.ds), Field(t.dx, DistBits(t.ds));
    WordSize(ll, t.ls);
    WordSize(dl, t.ds);
    AtSplit(input, p, a + b + c, d);
    AtSplit(input, p, a + b, c);
    AtSplit(input, p, a, b);
  }

  lemma CopyRead(input: seq<Byte>, p: nat, ll: seq<nat>, dl: seq<nat>, t: Token)
    requires Fits(ll) && Fits(dl) && t.Copy? && TokenOk(ll, dl, t) && At(input, p, TokenBits(ll, dl, t))
    ensures var q := p + ll[t.ls];
            && Symbol(ll, input, p) == Some((t.ls, q))
            && Match(input, dl, t.ls, q) == Some((Length(t), Distance(t), p + |TokenBits(ll, dl, t)|))
  {
    hide At, Fits, Field, CodeWord, Symbol, Pow2, Peek, DistanceAt, TokenBits, LengthExtra, LengthBase, Match, LengthBits, FirstLength, DistBits, FirstDist;
    CopyParts(input, p, ll, dl, t);
    var q, n := p + ll[t.ls], LengthBits(t.ls);
    LengthIs(t.ls);
    WordRead(input, p, ll, t.ls);
    PeekField(input, q, t.lx, n);
    AtLength(input, q, Field(t.lx, n));
    DistanceRead(input, q + n, dl, t.ds, t.dx);
    MatchIs(input, dl, t.ls, q, n, FirstLength(t.ls), t.lx, Distance(t), p + |TokenBits(ll, dl, t)|);
  }

  lemma MatchIs(input: seq<Byte>, dl: seq<nat>, s: nat, q: nat, n: nat, base: nat, x: nat, dist: nat, q': nat)
    requires 257 <= s <= 285 && LengthExtra(s - 257) == n && LengthBase(s - 257) == base
    requires q + n <= BitLen(input) && Peek(input, q, n) == x && DistanceAt(input, dl, q + n) == Some((dist, q'))
    ensures Match(input, dl, s, q) == Some((base + x, dist, q'))
  {
    hide Peek, DistanceAt, LengthExtra, LengthBase;
  }

  lemma WordSize(b: seq<nat>, s: nat)
    requires s < |b|
    ensures |CodeWord(b, s)| == b[s]
  {
  }

  /** One token that stands in the stream. */
  lemma TokenRead(input: seq<Byte>, p: nat, ll: seq<nat>, dl: seq<nat>, m: Limits, t: Token, h: seq<Byte>, peek: nat)
    returns (peek': nat)
    requires Fits(ll) && Fits(dl) && TokenOk(ll, dl, t) && Applied(h, t).Some? && At(input, p, TokenBits(ll, dl, t))
    ensures Codes(input, ll, dl, m, p, h, peek)
            == Codes(input, ll, dl, m, p + |TokenBits(ll, dl, t)|, Applied(h, t).value, peek')
  {
    hide At, Fits, CodeWord, TokenBits, TokenOk, Codes, W.CopyMatch, Asked, DistancePeek, LengthExtra, Symbol, Match;
    if t.Literal? {
      LiteralOk(ll, dl, t);
      WordSize(ll, t.b);
      WordRead(input, p, ll, t.b);
      CodesLiteral(input, ll, dl, m, p, h, peek, t.b, p + ll[t.b]);
      peek' := Max(peek, p + Asked(ll, m.l, t.b));
    } else {
      CopyOk(ll, dl, t);
      CopyRead(input, p, ll, dl, t);
      CodesMatch(input, ll, dl, m, p, h, peek, t.ls, p + ll[t.ls]);
      peek' := Max(Max(peek, p + Asked(ll, m.l, t.ls)), DistancePeek(input, dl, m.d, p + ll[t.ls] + LengthExtra(t.ls - 257)));
    }
  }

  /** Tokens written with the codes of a block are read back, whatever stands behind them. */
  lemma {:induction false} TokensRead(input: seq<Byte>, p: nat, ll: seq<nat>, dl: seq<nat>, m: Limits, ts: seq<Token>, h: seq<Byte>, peek: nat)
    returns (peek': nat)
    requires Fits(ll) && Fits(dl) && TokensOk(ll, dl, ts) && Replay(h, ts).Some?
    requires At(input, p, TokensBits(ll, dl, ts))
    ensures Codes(input, ll, dl, m, p, h, peek) == Done(Replay(h, ts).value, p + |TokensBits(ll, dl, ts)|, peek')
    decreases |ts|
  {
    hide At, Fits, CodeWord, TokenBits, TokenOk, Codes, Applied;
    if ts == [] {
      WordSize(ll, 256);
      WordRead(input, p, ll, 256);
      CodesEnd(input, ll, dl, m, p, h, peek, p + ll[256]);
      peek' := peek;
    } else {
      var t := ts[0];
      AtSplit(input, p, TokenBits(ll, dl, t), TokensBits(ll, dl, ts[1..]));
      peek' := TokenRead(input, p, ll, dl, m, t, h, peek);
      peek' := TokensRead(input, p + |TokenBits(ll, dl, t)|, ll, dl, m, ts[1..], Applied(h, t).value, peek');
    }
  }

  lemma LiteralOk(ll: seq<nat>, dl: seq<nat>, t: Token)
    requires t.Literal? && TokenOk(ll, dl, t)
    ensures t.b < |ll| && ll[t.b] > 0 && TokenBits(ll, dl, t) == CodeWord(ll, t.b)
  {
  }

  lemma CopyOk(ll: seq<nat>, dl: seq<nat>, t: Token)
    requires t.Copy? && TokenOk(ll, dl, t)
    ensures 257 <= t.ls <= 285 && t.ls < |ll| && t.ds < 30
  {
  }

  // ----- the fixed codes

  /** The table of section 3.2.6. */
  function FixedWord(s: nat): seq<Bit> {
    if s < 144 then Word(48 + s, 8)
    else if s < 256 then Word(400 + (s - 144), 9)
    else if s < 280 then Word(s - 256, 7)
    else Word(192 + (s - 280), 8)
  }

  predicate Extras(t: Token) {
    t.Copy? ==> 257 <= t.ls <= 285 && t.lx < Pow2(LengthBits(t.ls)) && t.ds < 30 && t.dx < Pow2(DistBits(t.ds))
  }

  function FixedToken(t: Token): seq<Bit>
    requires Extras(t)
  {
    match t
    case Literal(b) => FixedWord(b)
    case Copy(ls, lx, ds, dx) =>
      FixedWord(ls) + Field(lx, LengthBits(ls)) + Word(ds, 5) + Field(dx, DistBits(ds))
  }

  function FixedBits(ts: seq<Token>): seq<Bit>
    requires forall i :: 0 <= i < |ts| ==> Extras(ts[i])
  {
    if ts == [] then FixedWord(256) else FixedToken(ts[0]) + FixedBits(ts[1..])
  }

  lemma {:induction false} CountRun(l: seq<nat>, x: nat, n: nat, k: nat)
    ensures Count(l + Repeat(x, n), k) == Count(l, k) + if x == k then n else 0
    decreases n
  {
    var m := l + Repeat(x, n);
    if n > 0 {
      assert m[..|m| - 1] == l + Repeat(x, n - 1) && m[|m| - 1] == x;
      CountRun(l, x, n - 1, k);
    } else {
      assert m == l;
    }
  }

  /** How many of the first `s` fixed codes have `k` bits. */
  lemma FixedCount(s: nat, k: nat)
    requires s <= 288
    ensures Count(FixedLengths()[..s], k) ==
              if k == 8 then (if s <= 144 then s else if s <= 280 then 144 else 144 + (s - 280))
              else if k == 9 then (if s <= 144 then 0 else if s <= 256 then s - 144 else 112)
              else if k == 7 then (if s <= 256 then 0 else if s <= 280 then s - 256 else 24)
              else 0
  {
    hide Count;
    var e: seq<nat> := [];
    CountNil(k);
    var s1 := if s < 144 then s else 144;
    var s2 := if s < 144 then 0 else if s < 256 then s - 144 else 112;
    var s3 := if s < 256 then 0 else if s < 280 then s - 256 else 24;
    var s4 := if s < 280 then 0 else s - 280;
    CountRun(e, 8, s1, k);
    CountRun(e + Repeat(8, s1), 9, s2, k);
    CountRun(e + Repeat(8, s1) + Repeat(9, s2), 7, s3, k);
    CountRun(e + Repeat(8, s1) + Repeat(9, s2) + Repeat(7, s3), 8, s4, k);
    assert FixedLengths()[..s] == e + Repeat(8, s1) + Repeat(9, s2) + Repeat(7, s3) + Repeat(8, s4);
  }

  lemma CountNil(k: nat)
    ensures Count([], k) == 0
  {
  }

  lemma FixedFirst()
    ensures var l := FixedLengths(); FirstCode(l, 7) == 0 && FirstCode(l, 8) == 48 && FirstCode(l, 9) == 400
  {
    var l := FixedLengths();
    assert l[..288] == l;
    FixedCount(288, 1);
    FixedCount(288, 2);
    FixedCount(288, 3);
    FixedCount(288, 4);
    FixedCount(288, 5);
    FixedCount(288, 6);
    FixedCount(288, 7);
    FixedCount(288, 8);
    hide Count, FixedLengths;
    assert FirstCode(l, 1) == 0;
    assert FirstCode(l, 2) == 0;
    assert FirstCode(l, 3) == 0;
    assert FirstCode(l, 4) == 0;
    assert FirstCode(l, 5) == 0;
    assert FirstCode(l, 6) == 0;
  }

  /** The canonical code words of the fixed lengths are those of the table. */
  lemma FixedWords(s: nat)
    requires s < 288
    ensures CodeWord(FixedLengths(), s) == FixedWord(s)
  {
    hide Count, FirstCode, Word;
    FixedFirst();
    FixedCount(s, FixedLengths()[s]);
  }

  lemma FixedDistWords(s: nat)
    requires s < 30
    ensures CodeWord(FixedDistances(), s) == Word(s, 5)
  {
    var l := FixedDistances();
    hide Count, Word;
    CountNil(5);
    CountRun([], 5, s, 5);
    assert [] + Repeat(5, s) == l[..s];
    FixedDistFirst();
  }

  lemma FixedDistFirst()
    ensures FirstCode(FixedDistances(), 5) == 0
  {
    var l := FixedDistances();
    assert [] + Repeat(5, 30) == l;
    hide Count, FixedDistances, Repeat;
    forall k | 1 <= k < 5 ensures Count(l, k) == 0 {
      CountNil(k);
      CountRun([], 5, 30, k);
    }
    assert FirstCode(l, 1) == 0;
    assert FirstCode(l, 2) == 0;
    assert FirstCode(l, 3) == 0;
    assert FirstCode(l, 4) == 0;
  }

  lemma {:induction false} FixedIsCanonical(ts: seq<Token>)
    requires forall i :: 0 <= i < |ts| ==> Extras(ts[i])
    ensures TokensOk(FixedLengths(), FixedDistances(), ts)
    ensures TokensBits(FixedLengths(), FixedDistances(), ts) == FixedBits(ts)
    decreases |ts|
  {
    hide CodeWord, FixedWord, Word, Field;
    FixedPositive();
    FixedWords(256);
    if ts != [] {
      FixedIsCanonical(ts[1..]);
      if ts[0].Literal? {
        FixedWords(ts[0].b);
      } else {
        FixedWords(ts[0].ls);
        FixedDistWords(ts[0].ds);
      }
    }
  }

  lemma FixedPositive()
    ensures |FixedLengths()| == 288 && forall i :: 0 <= i < 288 ==> FixedLengths()[i] > 0
    ensures |FixedDistances()| == 30 && forall i :: 0 <= i < 30 ==> FixedDistances()[i] > 0
  {
  }

  // ----- the code lengths of a dynamic block

  /** A length; the last length 3 to 6 times more; 3 to 10, or 11 to 138, zeros. */
  datatype LenOp = Len(l: nat) | Again(n: nat) | Zeros(n: nat) | ManyZeros(n: nat)

  predicate OpOk(cl: seq<nat>, op: LenOp) {
    && |cl| == 19
    && match op
       case Len(l) => l < 16 && cl[l] > 0
       case Again(n) => 3 <= n <= 6 && cl[16] > 0
       case Zeros(n) => 3 <= n <= 10 && cl[17] > 0
       case ManyZeros(n) => 11 <= n <= 138 && cl[18] > 0
  }

  function OpBits(cl: seq<nat>, op: LenOp): seq<Bit>
    requires OpOk(cl, op)
  {
    match op
    case Len(l) => CodeWord(cl, l)
    case Again(n) => CodeWord(cl, 16) + Field(n - 3, 2)
    case Zeros(n) => CodeWord(cl, 17) + Field(n - 3, 3)
    case ManyZeros(n) => CodeWord(cl, 18) + Field(n - 11, 7)
  }

  function OpsBits(cl: seq<nat>, ops: seq<LenOp>): seq<Bit>
    requires forall i :: 0 <= i < |ops| ==> OpOk(cl, ops[i])
  {
    if ops == [] then [] else OpBits(cl, ops[0]) + OpsBits(cl, ops[1..])
  }

  /** The lengths `acc` with one more run; a repetition needs something to repeat. */
  function OpRun(acc: seq<nat>, op: LenOp): Option<seq<nat>> {
    match op
    case Len(l) => Some(acc + [l])
    case Again(n) => if acc == [] then None else Some(acc + Repeat(acc[|acc| - 1], n))
    case Zeros(n) => Some(acc + Repeat(0, n))
    case ManyZeros(n) => Some(acc + Repeat(0, n))
  }

  function Spelled(acc: seq<nat>, ops: seq<LenOp>): Option<seq<nat>>
    decreases |ops|
  {
    if ops == [] then Some(acc)
    else match OpRun(acc, ops[0])
      case None => None
      case Some(acc') => Spelled(acc', ops[1..])
  }

  lemma {:induction false} SpelledGrows(cl: seq<nat>, acc: seq<nat>, ops: seq<LenOp>)
    requires (forall i :: 0 <= i < |ops| ==> OpOk(cl, ops[i])) && Spelled(acc, ops).Some?
    ensures |Spelled(acc, ops).value| >= |acc| + |ops|
    decreases |ops|
  {
    if ops != [] {
      assert OpOk(cl, ops[0]);
      SpelledGrows(cl, OpRun(acc, ops[0]).value, ops[1..]);
    }
  }

  /** In a complete code a code length symbol is read like any other. */
  lemma LengthWordRead(input: seq<Byte>, p: nat, cl: seq<nat>, s: nat)
    requires Fits(cl) && Complete(cl) && s < |cl| && cl[s] > 0 && At(input, p, CodeWord(cl, s))
    ensures LengthSymbol(cl, input, p) == Some((s, p + cl[s]))
  {
    hide At, CodeWord, Kraft, Symbol, LengthSymbol, Fits;
    CompleteClass(cl);
    WordRead(input, p, cl, s);
    LengthSymbolExact(cl, input, p);
  }

  /** The number of repetitions behind symbol 16, 17 or 18. */
  lemma RunRead(input: seq<Byte>, q: nat, acc: seq<nat>, s: nat, v: nat, n: nat)
    requires (s == 16 && n == 2 && acc != []) || (s == 17 && n == 3) || (s == 18 && n == 7)
    requires v < Pow2(n) && At(input, q, Field(v, n))
    ensures Run(input, acc, s, q) ==
              Some((Repeat(if s == 16 then acc[|acc| - 1] else 0, v + if s == 18 then 11 else 3), q + n))
  {
    hide At, Field, Peek, Pow2;
    PeekField(input, q, v, n);
    AtLength(input, q, Field(v, n));
  }

  lemma SmallPowers()
    ensures Pow2(2) == 4 && Pow2(3) == 8 && Pow2(4) == 16 && Pow2(5) == 32 && Pow2(7) == 128
  {
  }

  lemma OpRead(input: seq<Byte>, p: nat, cl: seq<nat>, acc: seq<nat>, op: LenOp) returns (s: nat, run: seq<nat>)
    requires Fits(cl) && Complete(cl) && OpOk(cl, op) && OpRun(acc, op).Some? && At(input, p, OpBits(cl, op))
    ensures s < 19 && LengthSymbol(cl, input, p) == Some((s, p + cl[s]))
    ensures Run(input, acc, s, p + cl[s]) == Some((run, p + |OpBits(cl, op)|)) && OpRun(acc, op) == Some(acc + run)
  {
    hide At, CodeWord, Fits, Complete, LengthSymbol, Field, Pow2, Repeat, Peek;
    SmallPowers();
    match op
    case Len(l) =>
      s, run := l, [l];
      WordSize(cl, s);
      LengthWordRead(input, p, cl, s);
    case Again(n) =>
      s, run := 16, Repeat(acc[|acc| - 1], n);
      WordSize(cl, s);
      AtSplit(input, p, CodeWord(cl, s), Field(n - 3, 2));
      LengthWordRead(input, p, cl, s);
      RunRead(input, p + cl[s], acc, s, n - 3, 2);
    case Zeros(n) =>
      s, run := 17, Repeat(0, n);
      WordSize(cl, s);
      AtSplit(input, p, CodeWord(cl, s), Field(n - 3, 3));
      LengthWordRead(input, p, cl, s);
      RunRead(input, p + cl[s], acc, s, n - 3, 3);
    case ManyZeros(n) =>
      s, run := 18, Repeat(0, n);
      WordSize(cl, s);
      AtSplit(input, p, CodeWord(cl, s), Field(n - 11, 7));
      LengthWordRead(input, p, cl, s);
      RunRead(input, p + cl[s], acc, s, n - 11, 7);
  }

  /** Any list of lengths coded as in section 3.2.7 is read back as that list. */
  lemma {:induction false} OpsRead(input: seq<Byte>, p: nat, cl: seq<nat>, acc: seq<nat>, ops: seq<LenOp>, n: nat, peek: nat)
    returns (peek': nat)
    requires Fits(cl) && Complete(cl) && (forall i :: 0 <= i < |ops| ==> OpOk(cl, ops[i]))
    requires Spelled(acc, ops).Some? && |Spelled(acc, ops).value| == n && |acc| <= n
    requires At(input, p, OpsBits(cl, ops))
    ensures ReadLengths(input, cl, n, p, acc, peek) == AllLengths(Spelled(acc, ops).value, p + |OpsBits(cl, ops)|, peek')
    decreases |ops|
  {
    hide At, Fits, Complete, OpOk, OpBits, OpRun, LengthSymbol, Run, ReadLengths;
    SpelledGrows(cl, acc, ops);
    if ops == [] {
      ReadAll(input, cl, n, p, acc, peek);
      peek' := peek;
    } else {
      AtSplit(input, p, OpBits(cl, ops[0]), OpsBits(cl, ops[1..]));
      var s, run := OpRead(input, p, cl, acc, ops[0]);
      SpelledGrows(cl, acc + run, ops[1..]);
      OpSize(cl, ops[0]);
      LengthStep(input, cl, n, p, acc, peek, s, p + cl[s]);
      peek' := OpsRead(input, p + |OpBits(cl, ops[0])|, cl, acc + run, ops[1..], n, Max(peek, p + MaxLen(cl)));
    }
  }

  lemma OpSize(cl: seq<nat>, op: LenOp)
    requires OpOk(cl, op)
    ensures |cl| == 19
  {
  }

  // ----- the head of a dynamic block

  datatype Header = Header(ll: seq<nat>, dl: seq<nat>, cl: seq<nat>, nb: nat, ops: seq<LenOp>)

  /** The order in which the code length code lengths are sent. */
  function Order(j: nat): (i: nat)
    requires j < 19
    ensures i < 19
  {
    [16, 17, 18, 0, 8, 7, 9, 6, 10, 5, 11, 4, 12, 3, 13, 2, 14, 1, 15][j]
  }

  function ClBits(cl: seq<nat>, nb: nat): seq<Bit>
    requires |cl| == 19 && nb <= 19
  {
    if nb == 0 then [] else ClBits(cl, nb - 1) + Field(cl[Order(nb - 1)], 3)
  }

  ghost predicate HeaderOk(hd: Header) {
    && 257 <= |hd.ll| <= 286 && 1 <= |hd.dl| <= 32 && ValidCodes(hd.ll, hd.dl)
    && 4 <= hd.nb <= 19 && |hd.cl| == 19 && Complete(hd.cl)
    && (forall i :: 0 <= i < 19 ==> hd.cl[i] < 8)
    && (forall j: nat :: hd.nb <= j < 19 ==> hd.cl[Order(j)] == 0)
    && (forall i :: 0 <= i < |hd.ops| ==> OpOk(hd.cl, hd.ops[i]))
    && Spelled([], hd.ops) == Some(hd.ll + hd.dl)
  }

  function SizeBits(hd: Header): seq<Bit>
    requires 257 <= |hd.ll| && 1 <= |hd.dl| && 4 <= hd.nb
  {
    Field(|hd.ll| - 257, 5) + Field(|hd.dl| - 1, 5) + Field(hd.nb - 4, 4)
  }

  ghost function HeaderBits(hd: Header): seq<Bit>
    requires HeaderOk(hd)
  {
    SizeBits(hd) + ClBits(hd.cl, hd.nb) + OpsBits(hd.cl, hd.ops)
  }

  lemma {:induction false} ClRead(input: seq<Byte>, p: nat, cl: seq<nat>, nb: nat, j: nat)
    requires |cl| == 19 && (forall i :: 0 <= i < 19 ==> cl[i] < 8) && nb <= 19 && At(input, p, ClBits(cl, nb))
    ensures |ClBits(cl, nb)| == 3 * nb
    ensures j < nb ==> Peek(input, p + 3 * j, 3) == cl[Order(j)]
    decreases nb
  {
    hide At, Peek, Order, Field;
    if nb > 0 {
      AtSplit(input, p, ClBits(cl, nb - 1), Field(cl[Order(nb - 1)], 3));
      ClRead(input, p, cl, nb - 1, j);
      SmallPowers();
      if j == nb - 1 {
        hide Pow2;
        PeekField(input, p + 3 * j, cl[Order(j)], 3);
      }
    }
  }

  lemma BorderIsOrder(i: nat)
    requires i < 19
    ensures Order(BorderIndex(i)) == i
  {
    assert forall j :: 0 <= j < 19 ==> Border[j] == Order(j);
  }

  lemma CodeLengthsRead(input: seq<Byte>, p: nat, cl: seq<nat>, nb: nat)
    requires |cl| == 19 && (forall i :: 0 <= i < 19 ==> cl[i] < 8) && nb <= 19 && At(input, p, ClBits(cl, nb))
    requires forall j: nat :: nb <= j < 19 ==> cl[Order(j)] == 0
    ensures CodeLengths(input, p, nb) == cl
  {
    hide At, Peek, ClBits, Order, BorderIndex;
    forall i: nat | i < 19 ensures CodeLengths(input, p, nb)[i] == cl[i] {
      BorderIsOrder(i);
      ClRead(input, p, cl, nb, BorderIndex(i));
    }
  }

  lemma SizesRead(input: seq<Byte>, p: nat, hd: Header)
    requires 257 <= |hd.ll| <= 286 && 1 <= |hd.dl| <= 32 && 4 <= hd.nb <= 19
    requires At(input, p, SizeBits(hd))
    ensures |SizeBits(hd)| == 14 && p + 14 <= BitLen(input)
    ensures Peek(input, p, 5) == |hd.ll| - 257 && Peek(input, p + 5, 5) == |hd.dl| - 1
    ensures Peek(input, p + 10, 4) == hd.nb - 4
  {
    hide At, Field, Peek;
    SmallPowers();
    hide Pow2;
    var a, b, c := Field(|hd.ll| - 257, 5), Field(|hd.dl| - 1, 5), Field(hd.nb - 4, 4);
    AtSplit(input, p, a + b, c);
    AtSplit(input, p, a, b);
    PeekField(input, p, |hd.ll| - 257, 5);
    PeekField(input, p + 5, |hd.dl| - 1, 5);
    PeekField(input, p + 10, hd.nb - 4, 4);
    AtLength(input, p + 10, c);
  }

  lemma CompleteFits(b: seq<nat>)
    requires (Complete(b) || Lone(b) || MaxLen(b) == 0) && forall i :: 0 <= i < |b| ==> b[i] <= 16
    ensures Fits(b)
  {
    hide Kraft, Pow2;
    if MaxLen(b) == 0 {
      KraftOfZero(b);
    } else if Lone(b) {
      LoneClass(b);
      ClassIs(b);
    }
  }

  lemma {:induction false} SpelledSmall(cl: seq<nat>, acc: seq<nat>, ops: seq<LenOp>)
    requires (forall i :: 0 <= i < |ops| ==> OpOk(cl, ops[i])) && Spelled(acc, ops).Some? && Below16(acc)
    ensures Below16(Spelled(acc, ops).value)
    decreases |ops|
  {
    if ops != [] {
      assert OpOk(cl, ops[0]);
      SpelledSmall(cl, OpRun(acc, ops[0]).value, ops[1..]);
    }
  }

  lemma HeaderFits(hd: Header)
    requires HeaderOk(hd)
    ensures Fits(hd.ll) && Fits(hd.dl) && Fits(hd.cl) && UsableCode(hd.cl)
  {
    hide Complete, Lone, Fits, Kraft, MaxLen, Order, OpOk;
    EmptyBelow();
    SpelledSmall(hd.cl, [], hd.ops);
    var l := hd.ll + hd.dl;
    assert forall i :: 0 <= i < |hd.ll| ==> hd.ll[i] == l[i];
    assert forall i :: 0 <= i < |hd.dl| ==> hd.dl[i] == l[|hd.ll| + i];
    CompleteFits(hd.ll);
    CompleteFits(hd.dl);
    CompleteFits(hd.cl);
    CompleteClass(hd.cl);
  }

  /** A dynamic block that is written so is read back. */
  lemma DynamicRead(input: seq<Byte>, p: nat, hd: Header, ts: seq<Token>, h: seq<Byte>, peek: nat) returns (peek': nat)
    requires HeaderOk(hd) && TokensOk(hd.ll, hd.dl, ts) && Replay(h, ts).Some?
    requires At(input, p, HeaderBits(hd) + TokensBits(hd.ll, hd.dl, ts))
    ensures Dynamic(input, p, h, peek)
            == Done(Replay(h, ts).value, p + |HeaderBits(hd) + TokensBits(hd.ll, hd.dl, ts)|, peek')
  {
    hide At, Fits, Complete, TokensOk, TokensBits, Replay, Order, OpOk, OpsBits, ClBits, SizeBits, ValidCodes, Spelled;
    hide Peek, CodeLengths, ReadLengths, UsableCode, UsableDistances, Codes, Dynamic;
    var nl, nd := |hd.ll|, |hd.dl|;
    AtSplit(input, p, HeaderBits(hd), TokensBits(hd.ll, hd.dl, ts));
    AtSplit(input, p, SizeBits(hd) + ClBits(hd.cl, hd.nb), OpsBits(hd.cl, hd.ops));
    AtSplit(input, p, SizeBits(hd), ClBits(hd.cl, hd.nb));
    HeaderFits(hd);
    SizesRead(input, p, hd);
    CodeLengthsRead(input, p + 14, hd.cl, hd.nb);
    ClRead(input, p + 14, hd.cl, hd.nb, 0);
    AtLength(input, p + 14, ClBits(hd.cl, hd.nb));
    var peek1 := OpsRead(input, p + 14 + 3 * hd.nb, hd.cl, [], hd.ops, nl + nd, peek);
    CodesUsable(hd.ll, hd.dl);
    var l := hd.ll + hd.dl;
    assert l[..nl] == hd.ll && l[nl..] == hd.dl;
    DynamicIs(input, p, h, peek, nl, nd, hd.nb);
    peek' := TokensRead(input, p + |HeaderBits(hd)|, hd.ll, hd.dl, DynamicLimits, ts, h, peek1);
  }

  // ----- stored blocks

  /** Up to the next byte boundary. */
  function Pad(p: nat): nat { (8 - p % 8) % 8 }

  function PlainBits(p: nat, d: seq<Byte>): seq<Bit>
    requires |d| < 65536
  {
    Field(0, Pad(p)) + Field(|d|, 16) + Field(65535 - |d|, 16) + Bytes(d)
  }

  lemma PadBoundary(p: nat)
    ensures p + Pad(p) == 8 * ByteBoundary(p)
  {
  }

  lemma PlainRead(input: seq<Byte>, p: nat, d: seq<Byte>, h: seq<Byte>, peek: nat)
    requires |d| < 65536 && At(input, p, PlainBits(p, d))
    ensures Stored(input, p, h, peek) == Done(h + d, p + |PlainBits(p, d)|, peek)
  {
    hide At, Field, Bytes, Peek, ByteBoundary, Pad;
    var q := ByteBoundary(p);
    PadBoundary(p);
    var a, b, c := Field(0, Pad(p)), Field(|d|, 16), Field(65535 - |d|, 16);
    AtSplit(input, p, a + b + c, Bytes(d));
    AtSplit(input, p, a + b, c);
    AtSplit(input, p, a, b);
    I.Powers();
    Pow2Add(8, 8);
    hide Pow2;
    PeekField(input, 8 * q, |d|, 16);
    PeekField(input, 8 * q + 16, 65535 - |d|, 16);
    BytesAt(input, q + 4, d, 8);
  }

  // ----- whole streams

  datatype Block = Plain(data: seq<Byte>) | Fixed(ts: seq<Token>) | Coded(hd: Header, cts: seq<Token>)

  ghost predicate BlockOk(b: Block) {
    match b
    case Plain(d) => |d| < 65536
    case Fixed(ts) => forall i :: 0 <= i < |ts| ==> Extras(ts[i])
    case Coded(hd, ts) => HeaderOk(hd) && TokensOk(hd.ll, hd.dl, ts)
  }

  /** The block from bit `p` on, header and all; `last` says that it is the last one. */
  ghost function BlockBits(b: Block, p: nat, last: bool): seq<Bit>
    requires BlockOk(b)
  {
    [if last then 1 else 0] +
    match b
    case Plain(d) => [0, 0] + PlainBits(p + 3, d)
    case Fixed(ts) => [1, 0] + FixedBits(ts)
    case Coded(hd, ts) => [0, 1] + (HeaderBits(hd) + TokensBits(hd.ll, hd.dl, ts))
  }

  function BlockContent(h: seq<Byte>, b: Block): Option<seq<Byte>> {
    match b
    case Plain(d) => Some(h + d)
    case Fixed(ts) => Replay(h, ts)
    case Coded(_, ts) => Replay(h, ts)
  }

  ghost function StreamBits(bs: seq<Block>, p: nat): seq<Bit>
    requires bs != [] && forall i :: 0 <= i < |bs| ==> BlockOk(bs[i])
    decreases |bs|
  {
    var first := BlockBits(bs[0], p, |bs| == 1);
    if |bs| == 1 then first else first + StreamBits(bs[1..], p + |first|)
  }

  function Content(h: seq<Byte>, bs: seq<Block>): Option<seq<Byte>>
    decreases |bs|
  {
    if bs == [] then Some(h)
    else match BlockContent(h, bs[0])
      case None => None
      case Some(h') => Content(h', bs[1..])
  }

  lemma FixedFits()
    ensures Fits(FixedLengths()) && Fits(FixedDistances())
  {
    hide Kraft, Pow2;
    FixedKraft();
    ClassIs(FixedLengths());
    ClassIs(FixedDistances());
  }

  /** The three header bits. */
  lemma HeadRead(input: seq<Byte>, p: nat, last: Bit, lo: Bit, hi: Bit, rest: seq<Bit>)
    requires At(input, p, [last] + ([lo, hi] + rest))
    ensures BitAt(input, p) == last && Peek(input, p + 1, 2) == lo + 2 * hi && At(input, p + 3, rest)
    ensures p + 3 <= BitLen(input)
  {
    hide At, BitAt;
    AtSplit(input, p, [last], [lo, hi] + rest);
    AtSplit(input, p + 1, [lo, hi], rest);
    assert [lo, hi] == [lo] + [hi];
    AtSplit(input, p + 1, [lo], [hi]);
    AtOne(input, p, last);
    AtOne(input, p + 1, lo);
    AtOne(input, p + 2, hi);
    AtLength(input, p + 3, rest);
    assert Peek(input, p + 3, 0) == 0;
    PeekUnfold(input, p + 1, 2);
    PeekUnfold(input, p + 2, 1);
  }

  lemma BlockRead(input: seq<Byte>, p: nat, b: Block, last: bool, h: seq<Byte>, peek: nat) returns (peek': nat)
    requires BlockOk(b) && BlockContent(h, b).Some? && At(input, p, BlockBits(b, p, last))
    ensures p + 3 <= BitLen(input) && BitAt(input, p) == (if last then 1 else 0)
    ensures Rfc1951.Block(input, Peek(input, p + 1, 2), p + 3, h, peek)
            == Done(BlockContent(h, b).value, p + |BlockBits(b, p, last)|, peek')
  {
    hide At, Peek, BitAt, Stored, Codes, Dynamic, PlainBits, HeaderOk, TokensOk, TokensBits, FixedBits, Extras, Replay;
    hide FixedLengths, FixedDistances, Fits, HeaderBits;
    var bit: Bit := if last then 1 else 0;
    match b
    case Plain(d) =>
      HeadRead(input, p, bit, 0, 0, PlainBits(p + 3, d));
      PlainRead(input, p + 3, d, h, peek);
      peek' := peek;
    case Fixed(ts) =>
      HeadRead(input, p, bit, 1, 0, FixedBits(ts));
      FixedFits();
      FixedIsCanonical(ts);
      peek' := TokensRead(input, p + 3, FixedLengths(), FixedDistances(), FixedLimits, ts, h, peek);
    case Coded(hd, ts) =>
      HeadRead(input, p, bit, 0, 1, HeaderBits(hd) + TokensBits(hd.ll, hd.dl, ts));
      peek' := DynamicRead(input, p + 3, hd, ts, h, peek);
  }

  /** Every stream that is written so means what was written. */
  lemma {:induction false} StreamRead(input: seq<Byte>, p: nat, bs: seq<Block>, h: seq<Byte>, peek: nat) returns (peek': nat)
    requires bs != [] && (forall i :: 0 <= i < |bs| ==> BlockOk(bs[i])) && Content(h, bs).Some?
    requires At(input, p, StreamBits(bs, p))
    ensures Stream(input, p, h, peek) == Done(Content(h, bs).value, p + |StreamBits(bs, p)|, peek')
    decreases |bs|
  {
    hide At, Peek, BitAt, Rfc1951.Block, BlockOk, BlockBits, BlockContent;
    var last := |bs| == 1;
    var first := BlockBits(bs[0], p, last);
    if !last {
      AtSplit(input, p, first, StreamBits(bs[1..], p + |first|));
    }
    peek' := BlockRead(input, p, bs[0], last, h, peek);
    if !last {
      peek' := StreamRead(input, p + |first|, bs[1..], BlockContent(h, bs[0]).value, peek');
    }
  }

  // ----- through the decoder

  /** What `inflate` makes of a member that begins with a stream written so: only ever the content,
      and certainly that if fourteen more bits follow. */
  lemma WrittenInflates(bs: seq<Block>, input: seq<Byte>, pre: seq<Byte>, r: nat, out: seq<Byte>, pos: nat, taken: nat)
    requires bs != [] && (forall i :: 0 <= i < |bs| ==> BlockOk(bs[i])) && Content([], bs).Some?
    requires Holds(input, 0, StreamBits(bs, 0)) && Refines(input, pre, r, out, pos, taken)
    ensures r == 0 ==> out == Content([], bs).value && pos == |StreamBits(bs, 0)|
    ensures |StreamBits(bs, 0)| + 14 <= 8 * |input| ==> r == 0
  {
    hide Holds, At, Refines, BlockOk, Stream, StreamBits, Content;
    HoldsAt(input, 0, StreamBits(bs, 0));
    var peek := StreamRead(input, 0, bs, [], 0);
    InflateCorrect(input, pre, r, out, pos, taken);
  }

  /** A whole member of bytes: the stream, and two bytes for the last look-ups. */
  lemma PackedInflates(bs: seq<Block>, pre: seq<Byte>, r: nat, out: seq<Byte>, pos: nat, taken: nat)
    requires bs != [] && (forall i :: 0 <= i < |bs| ==> BlockOk(bs[i])) && Content([], bs).Some?
    requires Refines(Pack(StreamBits(bs, 0)) + [0, 0], pre, r, out, pos, taken)
    ensures r == 0 && Some(out) == Content([], bs)
  {
    hide Holds, At, Refines, BlockOk, StreamBits, Content, Pack;
    var bits := StreamBits(bs, 0);
    PackHolds(bits);
    HoldsAt(Pack(bits), 0, bits);
    AtMore(Pack(bits), [0, 0], 0, bits);
    HoldsAt(Pack(bits) + [0, 0], 0, bits);
    WrittenInflates(bs, Pack(bits) + [0, 0], pre, r, out, pos, taken);
  }

  lemma TwoBytes(input: seq<Byte>, q: nat, lo: Byte, hi: Byte)
    requires q + 2 <= |input| && input[q] == lo && input[q + 1] == hi
    ensures Peek(input, 8 * q, 16) == lo + 256 * hi
  {
    Pow2Of8();
    hide Peek, Pow2;
    PeekSplit(input, 8 * q, 8, 8);
    PeekByte(input, q, 8);
    PeekByte(input, q + 1, 8);
  }

  lemma StoredStarts(input: seq<Byte>)
    requires input != [] && input[0] == 1
    ensures BitAt(input, 0) == 1 && Peek(input, 1, 2) == 0
  {
    PeekInByte(input, 0, 1, 2);
    assert Shr(1, 0) == 1 && Shr(1, 1) == 0 && Low(2, 0) == 0;
  }

  /** A single stored block, byte by byte: it is inflated to exactly what it holds. */
  lemma StoredInflates(d: seq<Byte>, pre: seq<Byte>, r: nat, out: seq<Byte>, pos: nat, taken: nat)
    requires |d| < 65536
    requires Refines([1, |d| % 256, |d| / 256, 255 - |d| % 256, 255 - |d| / 256] + d, pre, r, out, pos, taken)
    ensures r == 0 && out == d && taken == 5 + |d|
  {
    hide Refines, Peek, BitAt, Stream;
    var n := |d|;
    var input: seq<Byte> := [1, n % 256, n / 256, 255 - n % 256, 255 - n / 256] + d;
    StoredStarts(input);
    TwoBytes(input, 1, n % 256, n / 256);
    TwoBytes(input, 3, 255 - n % 256, 255 - n / 256);
    assert input[5..5 + n] == d && [] + d == d;
    StreamStep(input, 0, [], 0);
    InflateCorrect(input, pre, r, out, pos, taken);
  }

  function LiteralWords(d: seq<Byte>): seq<Bit> {
    if d == [] then []
    else
      var b: nat := d[0];
      (if b < 144 then Word(48 + b, 8) else Word(400 + (b - 144), 9)) + LiteralWords(d[1..])
  }

  function Literals(d: seq<Byte>): (ts: seq<Token>)
    ensures |ts| == |d| && forall i :: 0 <= i < |ts| ==> ts[i] == Literal(d[i])
  {
    seq(|d|, i requires 0 <= i < |d| => Literal(d[i]))
  }

  lemma {:induction false} LiteralsAre(d: seq<Byte>, h: seq<Byte>)
    ensures FixedBits(Literals(d)) == LiteralWords(d) + [0, 0, 0, 0, 0, 0, 0]
    ensures Replay(h, Literals(d)) == Some(h + d)
    decreases |d|
  {
    hide Word;
    if d == [] {
      SevenZeros();
      assert h + d == h;
    } else {
      assert Literals(d)[1..] == Literals(d[1..]);
      LiteralsAre(d[1..], h + [d[0]]);
      assert h + [d[0]] + d[1..] == h + d;
    }
  }

  lemma SevenZeros()
    ensures Word(0, 7) == [0, 0, 0, 0, 0, 0, 0]
  {
    assert Word(0, 3) == [0, 0, 0];
    assert Word(0, 5) == [0, 0, 0, 0, 0];
  }

  /** Bytes in a single fixed block, each as in the table of section 3.2.6. */
  lemma LiteralsInflate(d: seq<Byte>, input: seq<Byte>, pre: seq<Byte>, r: nat, out: seq<Byte>, pos: nat, taken: nat)
    requires Holds(input, 0, [1, 1, 0] + LiteralWords(d) + [0, 0, 0, 0, 0, 0, 0])
    requires |LiteralWords(d)| + 24 <= 8 * |input| && Refines(input, pre, r, out, pos, taken)
    ensures r == 0 && out == d
  {
    hide Holds, Refines, FixedBits, LiteralWords, Replay;
    var ts := Literals(d);
    LiteralsAre(d, []);
    assert [1] + ([1, 0] + FixedBits(ts)) == [1, 1, 0] + LiteralWords(d) + [0, 0, 0, 0, 0, 0, 0];
    assert Content([], [Fixed(ts)]) == Some([] + d);
    assert [] + d == d;
    WrittenInflates([Fixed(ts)], input, pre, r, out, pos, taken);
  }
}
