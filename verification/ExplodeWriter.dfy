/** Writing imploded members and exploding them again.  Nothing here is shared with the decoder but
  the canonical codes. */
module ExplodeWriter {
  import opened Wrappers
  import opened Bits
  import opened BitStream
  import opened BitWriter
  import opened Canonical
  import opened Huffman
  import opened Runs
  import opened OnesReader
  import D = DeflateWriter
  import X = Explode
  import W = Window

  // ----- the tables of the source

  /** `cplen2`, for plain literals. */
  lemma Cplen2(low: nat)
    ensures var l := X.Cplen(X.Mode(false, low));
            && |l| == 64
            && l[..16] == [2, 3, 4, 5, 6, 7, 8, 9, 10, 11, 12, 13, 14, 15, 16, 17]
            && l[16..32] == [18, 19, 20, 21, 22, 23, 24, 25, 26, 27, 28, 29, 30, 31, 32, 33]
            && l[32..48] == [34, 35, 36, 37, 38, 39, 40, 41, 42, 43, 44, 45, 46, 47, 48, 49]
            && l[48..] == [50, 51, 52, 53, 54, 55, 56, 57, 58, 59, 60, 61, 62, 63, 64, 65]
  {
  }

  /** `cplen3`, for coded literals. */
  lemma Cplen3(low: nat)
    ensures var l := X.Cplen(X.Mode(true, low));
            && |l| == 64
            && l[..16] == [3, 4, 5, 6, 7, 8, 9, 10, 11, 12, 13, 14, 15, 16, 17, 18]
            && l[16..32] == [19, 20, 21, 22, 23, 24, 25, 26, 27, 28, 29, 30, 31, 32, 33, 34]
            && l[32..48] == [35, 36, 37, 38, 39, 40, 41, 42, 43, 44, 45, 46, 47, 48, 49, 50]
            && l[48..] == [51, 52, 53, 54, 55, 56, 57, 58, 59, 60, 61, 62, 63, 64, 65, 66]
  {
  }

  /** `extra` */
  lemma ExtraBits()
    ensures var l := X.Extra();
            && |l| == 64
            && l[..16] == [0, 0, 0, 0, 0, 0, 0, 0, 0, 0, 0, 0, 0, 0, 0, 0]
            && l[16..32] == [0, 0, 0, 0, 0, 0, 0, 0, 0, 0, 0, 0, 0, 0, 0, 0]
            && l[32..48] == [0, 0, 0, 0, 0, 0, 0, 0, 0, 0, 0, 0, 0, 0, 0, 0]
            && l[48..] == [0, 0, 0, 0, 0, 0, 0, 0, 0, 0, 0, 0, 0, 0, 0, 8]
  {
  }

  /** `cpdist4`, for six low bits; its first half. */
  lemma Cpdist4(coded: bool)
    ensures var l := X.Cpdist(X.Mode(coded, 6));
            && |l| == 64
            && l[..16] == [1, 65, 129, 193, 257, 321, 385, 449, 513, 577, 641, 705, 769, 833, 897, 961]
            && l[16..32] == [1025, 1089, 1153, 1217, 1281, 1345, 1409, 1473, 1537, 1601, 1665, 1729, 1793, 1857, 1921, 1985]
  {
    assert Pow2(6) == 64;
    hide Pow2;
  }

  /** `cpdist4`, for six low bits; its second half. */
  lemma Cpdist4End(coded: bool)
    ensures var l := X.Cpdist(X.Mode(coded, 6));
            && |l| == 64
            && l[32..48] == [2049, 2113, 2177, 2241, 2305, 2369, 2433, 2497, 2561, 2625, 2689, 2753, 2817, 2881, 2945, 3009]
            && l[48..] == [3073, 3137, 3201, 3265, 3329, 3393, 3457, 3521, 3585, 3649, 3713, 3777, 3841, 3905, 3969, 4033]
  {
    assert Pow2(6) == 64;
    hide Pow2;
  }

  /** `cpdist8`, for seven low bits; its first half. */
  lemma Cpdist8(coded: bool)
    ensures var l := X.Cpdist(X.Mode(coded, 7));
            && |l| == 64
            && l[..16] == [1, 129, 257, 385, 513, 641, 769, 897, 1025, 1153, 1281, 1409, 1537, 1665, 1793, 1921]
            && l[16..32] == [2049, 2177, 2305, 2433, 2561, 2689, 2817, 2945, 3073, 3201, 3329, 3457, 3585, 3713, 3841, 3969]
  {
    assert Pow2(7) == 128;
    hide Pow2;
  }

  /** `cpdist8`, for seven low bits; its second half. */
  lemma Cpdist8End(coded: bool)
    ensures var l := X.Cpdist(X.Mode(coded, 7));
            && |l| == 64
            && l[32..48] == [4097, 4225, 4353, 4481, 4609, 4737, 4865, 4993, 5121, 5249, 5377, 5505, 5633, 5761, 5889, 6017]
            && l[48..] == [6145, 6273, 6401, 6529, 6657, 6785, 6913, 7041, 7169, 7297, 7425, 7553, 7681, 7809, 7937, 8065]
  {
    assert Pow2(7) == 128;
    hide Pow2;
  }

  // ----- trees

  /** So many codes of the same length. */
  datatype Pair = Pair(len: nat, count: nat) {
    predicate Valid() { 1 <= len <= 16 && 1 <= count <= 16 }
  }

  function PairByte(p: Pair): Byte
    requires p.Valid()
  {
    16 * (p.count - 1) + (p.len - 1)
  }

  function PairBytes(ps: seq<Pair>): (r: seq<Byte>)
    requires forall i :: 0 <= i < |ps| ==> ps[i].Valid()
    ensures |r| == |ps|
  {
    seq(|ps|, i requires 0 <= i < |ps| => PairByte(ps[i]))
  }

  predicate PairsOk(ps: seq<Pair>) {
    1 <= |ps| <= 256 && forall i :: 0 <= i < |ps| ==> ps[i].Valid()
  }

  /** How many pairs, and the pairs. */
  function TreeBytes(ps: seq<Pair>): seq<Byte>
    requires PairsOk(ps)
  {
    [|ps| - 1] + PairBytes(ps)
  }

  /** The lengths that the pairs stand for. */
  function Spread(ps: seq<Pair>): seq<nat> {
    if ps == [] then [] else Repeat(ps[0].len, ps[0].count) + Spread(ps[1..])
  }

  lemma {:induction false} PairsRead(input: seq<Byte>, q: nat, ps: seq<Pair>, acc: seq<nat>, n: nat)
    requires (forall i :: 0 <= i < |ps| ==> ps[i].Valid()) && q + |ps| <= |input|
    requires input[q..q + |ps|] == PairBytes(ps) && |acc| + |Spread(ps)| == n
    ensures X.Pairs(input, q, |ps|, acc, n) == Some((acc + Spread(ps), q + |ps|))
    decreases |ps|
  {
    hide Repeat;
    if ps == [] {
      assert acc + [] == acc;
    } else {
      var b := input[q];
      assert b == input[q..q + |ps|][0] == PairBytes(ps)[0];
      assert b % 16 + 1 == ps[0].len && b / 16 + 1 == ps[0].count;
      assert input[q + 1..q + 1 + |ps[1..]|] == input[q..q + |ps|][1..] == PairBytes(ps)[1..] == PairBytes(ps[1..]);
      var run := Repeat(ps[0].len, ps[0].count);
      PairsRead(input, q + 1, ps[1..], acc + run, n);
      assert acc + run + Spread(ps[1..]) == acc + Spread(ps);
    }
  }

  lemma TreeRead(input: seq<Byte>, q: nat, ps: seq<Pair>)
    requires PairsOk(ps) && q + 1 + |ps| <= |input| && input[q..q + 1 + |ps|] == TreeBytes(ps)
    ensures X.Tree(input, q, |Spread(ps)|) == Some((Spread(ps), q + 1 + |ps|))
  {
    hide X.Pairs, Spread, PairBytes;
    assert input[q] == input[q..q + 1 + |ps|][0];
    assert input[q + 1..q + 1 + |ps|] == input[q..q + 1 + |ps|][1..] == PairBytes(ps);
    PairsRead(input, q + 1, ps, [], |Spread(ps)|);
    assert [] + Spread(ps) == Spread(ps);
  }

  // ----- code words, with every bit flipped

  function Inverted(bits: seq<Bit>): (r: seq<Bit>)
    ensures |r| == |bits|
  {
    seq(|bits|, i requires 0 <= i < |bits| => 1 - bits[i])
  }

  function FlippedWord(lens: seq<nat>, s: nat): seq<Bit>
    requires s < |lens|
  {
    Inverted(Word(CodeOf(lens, s), lens[s]))
  }

  lemma AtFlip(input: seq<Byte>, p: nat, bits: seq<Bit>)
    requires At(input, p, Inverted(bits))
    ensures At(Flip(input), p, bits)
  {
    hide BitAt, Flip;
    FlipSize(input);
    forall i | 0 <= i < |bits| ensures BitAt(Flip(input), p + i) == bits[i] {
      FlipBit(input, p + i);
      assert BitAt(input, p + i) == Inverted(bits)[i];
    }
  }

  lemma FlipSize(input: seq<Byte>)
    ensures |Flip(input)| == |input|
  {
  }

  lemma CodeRead(input: seq<Byte>, p: nat, b: seq<nat>, s: nat)
    requires D.Fits(b) && s < |b| && b[s] > 0 && At(input, p, FlippedWord(b, s))
    ensures X.CodeAt(b, input, p) == Some(s) && p + b[s] <= BitLen(input)
  {
    hide At, Word, Kraft, CodeOf, Peek, Rev, Flip, Msb;
    var flip := Flip(input);
    AtLength(input, p, FlippedWord(b, s));
    AtFlip(input, p, Word(CodeOf(b, s), b[s]));
    D.CodeFits(b, s);
    MsbWord(flip, p, CodeOf(b, s), b[s]);
    assert HasCode(b, s, flip, p);
    var t := X.CodeAt(b, input, p).value;
    assert HasCode(b, t, flip, p);
    var n := if b[s] < b[t] then b[t] else b[s];
    HasCodeStarts(b, s, flip, p, n);
    HasCodeStarts(b, t, flip, p, n);
    PrefixFree(b, s, t, Peek(flip, p, n));
  }

  lemma FieldRead(input: seq<Byte>, p: nat, v: nat, n: nat)
    requires At(input, p, Field(v, n)) && v < Pow2(n)
    ensures PeekOnes(input, p, n) == v
  {
    hide At, Field, Peek, PeekOnes;
    AtLength(input, p, Field(v, n));
    PeekField(input, p, v, n);
    OnesInside(input, p, n);
  }

  // ----- literals and matches

  datatype Trees = Trees(lb: seq<nat>, ll: seq<nat>, dl: seq<nat>)

  /** A literal; or a match, with the low bits of its distance, the codes of its distance and its
      length, and, for length code 63, extra bits. */
  datatype Piece = Literal(b: Byte) | Copy(d: nat, ds: nat, ls: nat, x: nat)

  predicate PieceOk(coded: bool, big: bool, t: Trees, pc: Piece) {
    match pc
    case Literal(b) => coded ==> b < |t.lb| && t.lb[b] > 0
    case Copy(d, ds, ls, x) =>
      && d < (if big then 128 else 64) && ds < 64 && ls < 64 && ds < |t.dl| && t.dl[ds] > 0 && ls < |t.ll| && t.ll[ls] > 0
      && x < 256 && (ls != 63 ==> x == 0)
  }

  function PieceBits(coded: bool, big: bool, t: Trees, pc: Piece): seq<Bit>
    requires PieceOk(coded, big, t, pc)
  {
    match pc
    case Literal(b) => [1] + if coded then FlippedWord(t.lb, b) else Field(b, 8)
    case Copy(d, ds, ls, x) =>
      [0] + (Field(d, if big then 7 else 6) + (FlippedWord(t.dl, ds) + (FlippedWord(t.ll, ls) + Field(x, if ls == 63 then 8 else 0))))
  }

  function PiecesBits(coded: bool, big: bool, t: Trees, ps: seq<Piece>): seq<Bit>
    requires forall i :: 0 <= i < |ps| ==> PieceOk(coded, big, t, ps[i])
  {
    if ps == [] then [] else PieceBits(coded, big, t, ps[0]) + PiecesBits(coded, big, t, ps[1..])
  }

  /** The shortest match is of three bytes with coded literals, and of two without. */
  function Length(coded: bool, pc: Piece): (n: nat)
    ensures n >= 1
  {
    match pc
    case Literal(_) => 1
    case Copy(_, _, ls, x) => (if coded then 3 else 2) + ls + x
  }

  function Distance(big: bool, pc: Piece): nat
    requires pc.Copy?
  {
    1 + (if big then 128 else 64) * pc.ds + pc.d
  }

  function Applied(coded: bool, big: bool, h: seq<Byte>, pc: Piece): Option<seq<Byte>> {
    match pc
    case Literal(b) => Some(h + [b])
    case Copy(_, _, _, _) =>
      if 1 <= Distance(big, pc) <= |h| then Some(W.CopyMatch(h, Distance(big, pc), Length(coded, pc))) else None
  }

  function Replay(coded: bool, big: bool, h: seq<Byte>, ps: seq<Piece>): Option<seq<Byte>>
    decreases |ps|
  {
    if ps == [] then Some(h)
    else match Applied(coded, big, h, ps[0])
      case None => None
      case Some(h') => Replay(coded, big, h', ps[1..])
  }

  function Total(coded: bool, ps: seq<Piece>): nat {
    if ps == [] then 0 else Length(coded, ps[0]) + Total(coded, ps[1..])
  }

  ghost predicate TreesOk(coded: bool, t: Trees) {
    (coded ==> |t.lb| == 256 && D.Fits(t.lb)) && |t.ll| == |t.dl| == 64 && D.Fits(t.ll) && D.Fits(t.dl)
  }

  function ModeIs(coded: bool, big: bool): X.Mode {
    X.Mode(coded, if big then 7 else 6)
  }

  lemma LiteralRead(input: seq<Byte>, p: nat, coded: bool, big: bool, t: Trees, b: Byte)
    requires TreesOk(coded, t) && PieceOk(coded, big, t, Literal(b)) && At(input, p, PieceBits(coded, big, t, Literal(b)))
    ensures BitOnes(input, p) == 1
    ensures X.LiteralAt(input, ModeIs(coded, big), t.lb, p + 1)
            == Some((b, p + |PieceBits(coded, big, t, Literal(b))|))
  {
    hide At, FlippedWord, Field, D.Fits, X.CodeAt, PeekOnes, BitAt;
    var rest := if coded then FlippedWord(t.lb, b) else Field(b, 8);
    AtSplit(input, p, [1], rest);
    AtOne(input, p, 1);
    WordSize(t.lb, b);
    if coded {
      CodeRead(input, p + 1, t.lb, b);
    } else {
      Pow2Of8();
      FieldRead(input, p + 1, b, 8);
    }
  }

  lemma WordSize(b: seq<nat>, s: nat)
    ensures s < |b| ==> |FlippedWord(b, s)| == b[s]
  {
  }

  lemma CopyRead(input: seq<Byte>, p: nat, coded: bool, big: bool, t: Trees, pc: Piece)
    requires pc.Copy? && TreesOk(coded, t) && PieceOk(coded, big, t, pc) && At(input, p, PieceBits(coded, big, t, pc))
    ensures BitOnes(input, p) == 0
    ensures X.MatchAt(input, ModeIs(coded, big), t.ll, t.dl, p + 1)
            == Some((Length(coded, pc), Distance(big, pc), p + |PieceBits(coded, big, t, pc)|))
  {
    hide At, FlippedWord, Field, D.Fits, X.CodeAt, PeekOnes, BitAt;
    var low := if big then 7 else 6;
    var a, b, c, e := Field(pc.d, low), FlippedWord(t.dl, pc.ds), FlippedWord(t.ll, pc.ls), Field(pc.x, if pc.ls == 63 then 8 else 0);
    WordSize(t.dl, pc.ds);
    WordSize(t.ll, pc.ls);
    AtSplit(input, p, [0], a + (b + (c + e)));
    AtSplit(input, p + 1, a, b + (c + e));
    AtSplit(input, p + 1 + low, b, c + e);
    AtSplit(input, p + 1 + low + |b|, c, e);
    AtOne(input, p, 0);
    Sixes();
    hide Pow2;
    FieldRead(input, p + 1, pc.d, low);
    CodeRead(input, p + 1 + low, t.dl, pc.ds);
    CodeRead(input, p + 1 + low + |b|, t.ll, pc.ls);
    if pc.ls == 63 {
      FieldRead(input, p + 1 + low + |b| + |c|, pc.x, 8);
    }
  }

  lemma Sixes()
    ensures Pow2(6) == 64 && Pow2(7) == 128 && Pow2(8) == 256
  {
    Pow2Of8();
  }

  /** Pieces that are written so mean what they say. */
  lemma {:induction false} PiecesRead(input: seq<Byte>, p: nat, coded: bool, big: bool, t: Trees, ps: seq<Piece>, h: seq<Byte>)
    requires TreesOk(coded, t) && (forall i :: 0 <= i < |ps| ==> PieceOk(coded, big, t, ps[i]))
    requires Replay(coded, big, h, ps).Some? && At(input, p, PiecesBits(coded, big, t, ps))
    ensures X.Meaning(input, ModeIs(coded, big), t.lb, t.ll, t.dl, p, Total(coded, ps), h)
            == Some((Replay(coded, big, h, ps).value, p + |PiecesBits(coded, big, t, ps)|))
    decreases |ps|
  {
    hide At, TreesOk, PieceOk, PieceBits, BitOnes, X.LiteralAt, X.MatchAt, X.Meaning, W.CopyMatch, Length;
    var m := ModeIs(coded, big);
    if ps == [] {
      X.MeaningEnd(input, m, t.lb, t.ll, t.dl, p, 0, h);
    } else {
      var pc, n := ps[0], Total(coded, ps);
      AtSplit(input, p, PieceBits(coded, big, t, pc), PiecesBits(coded, big, t, ps[1..]));
      X.MeaningStep(input, m, t.lb, t.ll, t.dl, p, n, h);
      if pc.Literal? {
        LiteralRead(input, p, coded, big, t, pc.b);
        OneLong(coded, pc);
      } else {
        CopyRead(input, p, coded, big, t, pc);
      }
      PiecesRead(input, p + |PieceBits(coded, big, t, pc)|, coded, big, t, ps[1..], Applied(coded, big, h, pc).value);
    }
  }

  lemma OneLong(coded: bool, pc: Piece)
    requires pc.Literal?
    ensures Length(coded, pc) == 1
  {
  }

  // ----- whole members

  /** The trees that are sent: one for the literals if they are coded, for the lengths, for the
      distances. */
  datatype Sent = Sent(b: seq<Pair>, l: seq<Pair>, d: seq<Pair>)

  function Sents(coded: bool, t: Sent): seq<Byte>
    requires (coded ==> PairsOk(t.b)) && PairsOk(t.l) && PairsOk(t.d)
  {
    (if coded then TreeBytes(t.b) else []) + TreeBytes(t.l) + TreeBytes(t.d)
  }

  function Grown(coded: bool, t: Sent): Trees {
    Trees(if coded then Spread(t.b) else [], Spread(t.l), Spread(t.d))
  }

  ghost predicate SentOk(coded: bool, t: Sent) {
    && (coded ==> PairsOk(t.b) && |Spread(t.b)| == 256 && Kraft(Spread(t.b)) == Pow2(16))
    && PairsOk(t.l) && |Spread(t.l)| == 64 && Kraft(Spread(t.l)) == Pow2(16)
    && PairsOk(t.d) && |Spread(t.d)| == 64 && Kraft(Spread(t.d)) == Pow2(16)
  }

  lemma {:induction false} SpreadSmall(ps: seq<Pair>)
    requires forall i :: 0 <= i < |ps| ==> ps[i].Valid()
    ensures forall i :: 0 <= i < |Spread(ps)| ==> 1 <= Spread(ps)[i] <= 16
    decreases |ps|
  {
    if ps != [] {
      SpreadSmall(ps[1..]);
      assert ps[0].Valid();
    }
  }

  lemma CodeTreeRead(input: seq<Byte>, q: nat, ps: seq<Pair>)
    requires PairsOk(ps) && q + 1 + |ps| <= |input| && input[q..q + 1 + |ps|] == TreeBytes(ps)
    requires Kraft(Spread(ps)) == Pow2(16)
    ensures X.CodeTree(input, q, |Spread(ps)|) == Some((Spread(ps), q + 1 + |ps|)) && D.Fits(Spread(ps))
  {
    hide Kraft, Pow2, Spread, X.Tree, TreeBytes;
    TreeRead(input, q, ps);
    SpreadSmall(ps);
    ClassIs(Spread(ps));
  }

  /** A member begins with its trees; what follows them is written bit by bit. */
  lemma MemberRead(input: seq<Byte>, coded: bool, big: bool, t: Sent, ps: seq<Piece>)
    requires SentOk(coded, t) && (forall i :: 0 <= i < |ps| ==> PieceOk(coded, big, Grown(coded, t), ps[i]))
    requires Sents(coded, t) <= input && Replay(coded, big, X.Zeros(), ps).Some?
    requires Holds(input, 8 * |Sents(coded, t)|, PiecesBits(coded, big, Grown(coded, t), ps))
    ensures X.Exploded(input, ModeIs(coded, big), Total(coded, ps))
            == Some((Replay(coded, big, X.Zeros(), ps).value,
                     8 * |Sents(coded, t)| + |PiecesBits(coded, big, Grown(coded, t), ps)|))
  {
    hide Kraft, Pow2, Spread, PairsOk, TreeBytes, X.CodeTree, X.Meaning, At, Holds, PieceOk, PiecesBits, Replay, D.Fits, X.Zeros, Total;
    var b := if coded then TreeBytes(t.b) else [];
    var l, d := TreeBytes(t.l), TreeBytes(t.d);
    var q, q', q'' := |b|, |b| + |l|, |b| + |l| + |d|;
    TreeSize(t.l);
    TreeSize(t.d);
    var s := b + l + d;
    assert input[..q''] == s;
    assert input[q..q'] == s[q..q'] == l;
    assert input[q'..q''] == s[q'..q''] == d;
    if coded {
      TreeSize(t.b);
      assert input[0..q] == s[..q] == b;
      CodeTreeRead(input, 0, t.b);
    }
    CodeTreeRead(input, q, t.l);
    CodeTreeRead(input, q', t.d);
    HoldsAt(input, 8 * q'', PiecesBits(coded, big, Grown(coded, t), ps));
    PiecesRead(input, 8 * q'', coded, big, Grown(coded, t), ps, X.Zeros());
  }

  lemma TreeSize(ps: seq<Pair>)
    requires PairsOk(ps)
    ensures |TreeBytes(ps)| == 1 + |ps|
  {
  }

  /** 32K of zeros. */
  function Before(): seq<Byte> {
    seq(32768, _ => 0)
  }

  lemma BeforeIs()
    ensures Before() == X.Zeros()
  {
  }

  lemma FlagsAre(flags: nat)
    ensures X.ModeOf(flags) == ModeIs(flags / 4 % 2 == 1, flags / 2 % 2 == 1)
  {
  }

  /** What `explode` makes of such a member, by its flags: exactly the bytes that were written, and 0
      if nothing follows. */
  lemma WrittenExplodes(input: seq<Byte>, flags: nat, t: Sent, ps: seq<Piece>, r: nat, out: seq<Byte>)
    requires var coded, big := flags / 4 % 2 == 1, flags / 2 % 2 == 1;
             && SentOk(coded, t) && (forall i :: 0 <= i < |ps| ==> PieceOk(coded, big, Grown(coded, t), ps[i]))
             && Sents(coded, t) <= input && Replay(coded, big, Before(), ps).Some?
             && Holds(input, 8 * |Sents(coded, t)|, PiecesBits(coded, big, Grown(coded, t), ps))
             && X.Refines(input, X.ModeOf(flags), Total(coded, ps), r, out)
    ensures var coded, big := flags / 4 % 2 == 1, flags / 2 % 2 == 1;
            && Replay(coded, big, Before(), ps) == Some(Before() + out)
            && r == if |Sents(coded, t)| + (|PiecesBits(coded, big, Grown(coded, t), ps)| + 7) / 8 == |input| then 0 else 5
  {
    var coded, big := flags / 4 % 2 == 1, flags / 2 % 2 == 1;
    hide SentOk, PieceOk, Sents, Replay, Holds, PiecesBits, X.Exploded, Total, Before, X.ModeOf, Grown;
    BeforeIs();
    FlagsAre(flags);
    MemberRead(input, coded, big, t, ps);
  }

  // ----- two members

  lemma {:induction false} FlatCodes(k: nat, n: nat, s: nat)
    requires 0 < k && s < n
    ensures CodeOf(Repeat(k, n), s) == s
  {
    hide Count, FirstCode;
    var l := Repeat(k, n);
    NoneShorter(k, n, k);
    D.CountRun([], k, s, k);
    D.CountNil(k);
    assert [] + Repeat(k, s) == l[..s];
  }

  lemma {:induction false} NoneShorter(k: nat, n: nat, j: nat)
    requires j <= k
    ensures FirstCode(Repeat(k, n), j) == 0
    decreases j
  {
    hide Count, Repeat;
    if j > 1 {
      NoneShorter(k, n, j - 1);
      D.CountRun([], k, n, j - 1);
      D.CountNil(j - 1);
      assert [] + Repeat(k, n) == Repeat(k, n);
    }
  }

  lemma FlatKraft(k: nat, n: nat)
    requires (k == 6 && n == 64) || (k == 8 && n == 256)
    ensures Kraft(Repeat(k, n)) == Pow2(16)
  {
    hide Kraft, Repeat;
    Sixes();
    Pow2Add(8, 2);
    Pow2Add(8, 8);
    assert Pow2(2) == 4;
    hide Pow2;
    X.KraftNil();
    KraftRun([], k, n);
    assert [] + Repeat(k, n) == Repeat(k, n);
  }

  /** Four times sixteen codes of six bits. */
  function Flat6(): (ps: seq<Pair>)
    ensures PairsOk(ps) && TreeBytes(ps) == [0x03, 0xf5, 0xf5, 0xf5, 0xf5]
  {
    [Pair(6, 16), Pair(6, 16), Pair(6, 16), Pair(6, 16)]
  }

  function Flat8(): (ps: seq<Pair>)
    ensures PairsOk(ps) && |ps| == 16
  {
    seq(16, _ => Pair(8, 16))
  }

  lemma {:induction false} SpreadFlat(k: nat, n: nat)
    requires 1 <= k <= 16
    ensures Spread(seq(n, _ => Pair(k, 16))) == Repeat(k, 16 * n)
    decreases n
  {
    if n > 0 {
      var ps := seq(n, _ => Pair(k, 16));
      assert ps[1..] == seq(n - 1, _ => Pair(k, 16));
      SpreadFlat(k, n - 1);
      assert Repeat(k, 16) + Repeat(k, 16 * (n - 1)) == Repeat(k, 16 * n);
    }
  }

  lemma Flats()
    ensures Spread(Flat6()) == Repeat(6, 64) && Kraft(Repeat(6, 64)) == Pow2(16)
    ensures Spread(Flat8()) == Repeat(8, 256) && Kraft(Repeat(8, 256)) == Pow2(16)
  {
    SpreadFlat(6, 4);
    SpreadFlat(8, 16);
    assert Flat6() == seq(4, _ => Pair(6, 16));
    FlatKraft(6, 64);
    FlatKraft(8, 256);
  }

  /** The letter "a", and a match of the shortest length one byte back. */
  function LetterAndMatch(): seq<Piece> {
    [Literal(0x61), Copy(0, 0, 0, 0)]
  }

  lemma OnesWord()
    ensures FlippedWord(Repeat(6, 64), 0) == [1, 1, 1, 1, 1, 1]
  {
    FlatCodes(6, 64, 0);
    hide CodeOf;
    assert Word(0, 3) == [0, 0, 0];
    assert Word(0, 6) == [0, 0, 0, 0, 0, 0];
  }

  lemma LetterWord()
    ensures FlippedWord(Repeat(8, 256), 0x61) == [1, 0, 0, 1, 1, 1, 1, 0]
  {
    FlatCodes(8, 256, 0x61);
    hide CodeOf;
    assert Word(0x61 / 16, 4) == [0, 1, 1, 0];
    assert Word(0x61, 8) == [0, 1, 1, 0, 0, 0, 0, 1];
  }

  lemma LetterBits(coded: bool, t: Trees)
    requires coded ==> t.lb == Repeat(8, 256)
    ensures PieceOk(coded, false, t, Literal(0x61))
    ensures PieceBits(coded, false, t, Literal(0x61)) == [1] + if coded then [1, 0, 0, 1, 1, 1, 1, 0] else [1, 0, 0, 0, 0, 1, 1, 0]
  {
    hide FlippedWord;
    LetterWord();
    assert Field(0x61, 8) == [1, 0, 0, 0, 0, 1, 1, 0];
  }

  lemma MatchBits(coded: bool, t: Trees)
    requires t.ll == t.dl == Repeat(6, 64)
    ensures PieceOk(coded, false, t, Copy(0, 0, 0, 0))
    ensures PieceBits(coded, false, t, Copy(0, 0, 0, 0)) == [0, 0, 0, 0, 0, 0, 0, 1, 1, 1, 1, 1, 1, 1, 1, 1, 1, 1, 1]
  {
    hide FlippedWord;
    OnesWord();
    assert Field(0, 6) == [0, 0, 0, 0, 0, 0] && Field(0, 0) == [];
  }

  lemma TwoPieces(coded: bool, big: bool, t: Trees, ps: seq<Piece>)
    requires |ps| == 2 && PieceOk(coded, big, t, ps[0]) && PieceOk(coded, big, t, ps[1])
    ensures PiecesBits(coded, big, t, ps) == PieceBits(coded, big, t, ps[0]) + PieceBits(coded, big, t, ps[1])
    ensures forall i :: 0 <= i < |ps| ==> PieceOk(coded, big, t, ps[i])
  {
    hide PieceBits, PieceOk;
    assert ps[1..] == [ps[1]] && ps[1..][1..] == [];
    assert PiecesBits(coded, big, t, []) == [];
    assert PieceBits(coded, big, t, ps[1]) + [] == PieceBits(coded, big, t, ps[1]);
  }

  lemma TwoTotal(coded: bool, ps: seq<Piece>)
    requires |ps| == 2
    ensures Total(coded, ps) == Length(coded, ps[0]) + Length(coded, ps[1])
  {
    hide Length;
    assert ps[1..] == [ps[1]] && ps[1..][1..] == [];
    assert Total(coded, []) == 0;
    assert Total(coded, [ps[1]]) == Length(coded, ps[1]);
  }

  lemma TwoReplay(coded: bool, big: bool, h: seq<Byte>, ps: seq<Piece>)
    requires |ps| == 2 && Applied(coded, big, h, ps[0]).Some?
    ensures Replay(coded, big, h, ps) == Applied(coded, big, Applied(coded, big, h, ps[0]).value, ps[1])
  {
    hide Applied;
    assert ps[1..] == [ps[1]] && ps[1..][1..] == [];
    var g := Applied(coded, big, h, ps[0]).value;
    assert Replay(coded, big, g, [ps[1]]) == Applied(coded, big, g, ps[1]);
  }

  lemma Repeated(h: seq<Byte>, b: Byte)
    ensures W.CopyMatch(h + [b], 1, 2) == h + [b, b, b] && W.CopyMatch(h + [b], 1, 3) == h + [b, b, b, b]
  {
    hide W.CopyMatch;
    var g := h + [b];
    W.CopyMatchOne(g, 1);
    W.CopyMatchOne(g + [b], 1);
    W.CopyMatchOne(g + [b] + [b], 1);
    W.CopyMatchAdd(g, 1, 1, 1);
    W.CopyMatchAdd(g, 1, 2, 1);
    assert g + [b] + [b] == h + [b, b, b] && g + [b] + [b] + [b] == h + [b, b, b, b];
  }

  lemma SampleMeaning(coded: bool)
    ensures Replay(coded, false, Before(), LetterAndMatch())
            == Some(Before() + if coded then [0x61, 0x61, 0x61, 0x61] else [0x61, 0x61, 0x61])
    ensures Total(coded, LetterAndMatch()) == if coded then 4 else 3
  {
    hide W.CopyMatch, Replay, Total, Before;
    TwoReplay(coded, false, Before(), LetterAndMatch());
    TwoTotal(coded, LetterAndMatch());
    Repeated(Before(), 0x61);
  }

  lemma FourBytes(input: seq<Byte>, q: nat, a: Byte)
    requires q + 4 == |input| && input[q..] == [a, 0x00, 0xff, 0x0f]
    ensures At(input, 8 * q, Field(a, 8) + Field(0x00, 8) + Field(0xff, 8) + Field(0x0f, 8))
  {
    hide At, Field;
    var d := [a, 0x00, 0xff, 0x0f];
    assert input[q..q + 4] == d;
    BytesHold(input, q, d);
    BytesOne([], a);
    BytesOne([a], 0);
    BytesOne([a, 0], 0xff);
    BytesOne([a, 0, 0xff], 0x0f);
    assert [] + [a] == [a] && [a] + [0] == [a, 0] && [a, 0] + [0xff] == [a, 0, 0xff] && [a, 0, 0xff] + [0x0f] == d;
    assert Bytes([]) == [] && [] + Field(a, 8) == Field(a, 8);
  }

  lemma FirstFields()
    ensures Field(0xc3, 8) == [1, 1, 0, 0, 0, 0, 1, 1] && Field(0xf3, 8) == [1, 1, 0, 0, 1, 1, 1, 1]
  {
  }

  lemma LastFields()
    ensures Field(0x00, 8) == [0, 0, 0, 0, 0, 0, 0, 0] && Field(0xff, 8) == [1, 1, 1, 1, 1, 1, 1, 1]
  {
  }

  lemma TailField()
    ensures Field(0x0f, 8) == [1, 1, 1, 1, 0, 0, 0, 0]
  {
  }

  lemma SampleHolds(input: seq<Byte>, q: nat, coded: bool, bits: seq<Bit>)
    requires q + 4 == |input| && input[q..] == [if coded then 0xf3 else 0xc3, 0x00, 0xff, 0x0f]
    requires bits == [1] + (if coded then [1, 0, 0, 1, 1, 1, 1, 0] else [1, 0, 0, 0, 0, 1, 1, 0])
                     + [0, 0, 0, 0, 0, 0, 0, 1, 1, 1, 1, 1, 1, 1, 1, 1, 1, 1, 1]
    ensures Holds(input, 8 * q, bits) && |bits| == 28
  {
    hide Holds, At, Field;
    var a: Byte := if coded then 0xf3 else 0xc3;
    assert input[q..] == [a, 0x00, 0xff, 0x0f];
    FourBytes(input, q, a);
    FirstFields();
    LastFields();
    TailField();
    var front, back := Field(a, 8) + Field(0x00, 8), Field(0xff, 8) + Field(0x0f, 8);
    assert front == bits[..16];
    assert back == bits[16..] + [0, 0, 0, 0];
    assert front + Field(0xff, 8) + Field(0x0f, 8) == front + back == bits + [0, 0, 0, 0];
    AtSplit(input, 8 * q, bits, [0, 0, 0, 0]);
    HoldsAt(input, 8 * q, bits);
  }

  lemma Cancel(h: seq<Byte>, a: seq<Byte>, b: seq<Byte>)
    requires h + a == h + b
    ensures a == b
  {
    assert (h + a)[|h|..] == a && (h + b)[|h|..] == b;
  }

  /** 256 codes of eight bits for coded literals, and twice 64 of six. */
  function SampleTrees(coded: bool): seq<Byte> {
    (if coded then [0x0f, 0xf7, 0xf7, 0xf7, 0xf7, 0xf7, 0xf7, 0xf7, 0xf7, 0xf7, 0xf7, 0xf7, 0xf7, 0xf7, 0xf7, 0xf7, 0xf7] else [])
    + [0x03, 0xf5, 0xf5, 0xf5, 0xf5, 0x03, 0xf5, 0xf5, 0xf5, 0xf5]
  }

  lemma Flat8Bytes()
    ensures TreeBytes(Flat8()) == [0x0f, 0xf7, 0xf7, 0xf7, 0xf7, 0xf7, 0xf7, 0xf7, 0xf7, 0xf7, 0xf7, 0xf7, 0xf7, 0xf7, 0xf7, 0xf7, 0xf7]
  {
  }

  lemma SampleSent(coded: bool)
    ensures var t := Sent(Flat8(), Flat6(), Flat6());
            && SentOk(coded, t) && Sents(coded, t) == SampleTrees(coded) && |SampleTrees(coded)| == (if coded then 27 else 10)
            && Grown(coded, t) == Trees(if coded then Repeat(8, 256) else [], Repeat(6, 64), Repeat(6, 64))
  {
    hide Spread, Kraft, Pow2, Flat6, Flat8, TreeBytes;
    Flats();
    Flat8Bytes();
  }

  /** A member of the letter and the shortest match. */
  lemma SampleExplodes(coded: bool, input: seq<Byte>, r: nat, out: seq<Byte>)
    requires input == SampleTrees(coded) + [if coded then 0xf3 else 0xc3, 0x00, 0xff, 0x0f]
    requires X.Refines(input, X.ModeOf(if coded then 4 else 0), if coded then 4 else 3, r, out)
    ensures r == 0 && out == if coded then [0x61, 0x61, 0x61, 0x61] else [0x61, 0x61, 0x61]
  {
    hide X.Refines, SentOk, Sents, SampleTrees, Grown, Holds, X.ModeOf, Replay, Total, PiecesBits, PieceOk, PieceBits, Before, Flat6, Flat8;
    var t := Sent(Flat8(), Flat6(), Flat6());
    var ps := LetterAndMatch();
    SampleSent(coded);
    SampleMeaning(coded);
    var g := Grown(coded, t);
    LetterBits(coded, g);
    MatchBits(coded, g);
    TwoPieces(coded, false, g, ps);
    var bits := PiecesBits(coded, false, g, ps);
    var n := |SampleTrees(coded)|;
    assert input[n..] == [if coded then 0xf3 else 0xc3, 0x00, 0xff, 0x0f];
    SampleHolds(input, n, coded, bits);
    WrittenExplodes(input, if coded then 4 else 0, t, ps, r, out);
    Cancel(Before(), out, if coded then [0x61, 0x61, 0x61, 0x61] else [0x61, 0x61, 0x61]);
  }

  /** Plain literals, 4K: the shortest match has two bytes. */
  lemma PlainSample(r: nat, out: seq<Byte>)
    requires X.Refines([0x03, 0xf5, 0xf5, 0xf5, 0xf5, 0x03, 0xf5, 0xf5, 0xf5, 0xf5, 0xc3, 0x00, 0xff, 0x0f], X.ModeOf(0), 3, r, out)
    ensures r == 0 && out == [0x61, 0x61, 0x61]
  {
    hide X.Refines, X.ModeOf;
    var input: seq<Byte> := [0x03, 0xf5, 0xf5, 0xf5, 0xf5, 0x03, 0xf5, 0xf5, 0xf5, 0xf5, 0xc3, 0x00, 0xff, 0x0f];
    assert input == SampleTrees(false) + [0xc3, 0x00, 0xff, 0x0f];
    SampleExplodes(false, input, r, out);
  }

  /** Coded literals, 4K: the shortest match has three bytes. */
  lemma CodedSample(r: nat, out: seq<Byte>)
    requires X.Refines([0x0f, 0xf7, 0xf7, 0xf7, 0xf7, 0xf7, 0xf7, 0xf7, 0xf7, 0xf7, 0xf7, 0xf7, 0xf7, 0xf7, 0xf7, 0xf7, 0xf7,
                        0x03, 0xf5, 0xf5, 0xf5, 0xf5, 0x03, 0xf5, 0xf5, 0xf5, 0xf5, 0xf3, 0x00, 0xff, 0x0f],
                       X.ModeOf(4), 4, r, out)
    ensures r == 0 && out == [0x61, 0x61, 0x61, 0x61]
  {
    hide X.Refines, X.ModeOf;
    var input: seq<Byte> := [0x0f, 0xf7, 0xf7, 0xf7, 0xf7, 0xf7, 0xf7, 0xf7, 0xf7, 0xf7, 0xf7, 0xf7, 0xf7, 0xf7, 0xf7, 0xf7, 0xf7,
                             0x03, 0xf5, 0xf5, 0xf5, 0xf5, 0x03, 0xf5, 0xf5, 0xf5, 0xf5, 0xf3, 0x00, 0xff, 0x0f];
    assert input == SampleTrees(true) + [0xf3, 0x00, 0xff, 0x0f];
    SampleExplodes(true, input, r, out);
  }
}
