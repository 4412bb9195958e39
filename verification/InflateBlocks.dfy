/** inflate: stored, fixed and dynamic blocks, and the whole stream. */
module InflateBlocks {
  import opened Wrappers
  import opened Bits
  import opened BitStream
  import opened Canonical
  import opened HuftTable
  import opened HuftCode
  import opened Huffman
  import opened TableReader
  import opened Runs
  import opened Rfc1951
  import opened Rfc1951Facts
  import opened Inflate
  import R = BitReader
  import W = Window

  // ----- inflate_stored

  lemma Boundary(next: nat, bk: nat)
    requires bk <= 8 * next
    ensures 8 * next - bk + bk % 8 == 8 * ByteBoundary(8 * next - bk)
    ensures ByteBoundary(8 * ByteBoundary(8 * next - bk)) == ByteBoundary(8 * next - bk)
  {
    assert bk == 8 * (bk / 8) + bk % 8;
    var q := next - bk / 8;
    assert 8 * next - bk + 7 == 8 * q + (7 - bk % 8);
  }

  /** Go to the byte boundary, and get the length and its complement. */
  method StoredHeader(rd: R.BitReader, ghost peek: nat) returns (ok: bool, n: nat)
    requires rd.Valid() && rd.Took(peek)
    modifies rd
    ensures rd.Valid()
    ensures var q := ByteBoundary(old(rd.Pos()));
            && (ok <==> q + 4 <= |rd.input| && n + Peek(rd.input, 8 * q + LenBits, LenBits) == 0xffff)
            && (q + 4 <= |rd.input| ==> n == Peek(rd.input, 8 * q, LenBits))
            && (ok ==> rd.Pos() == 8 * (q + 4) && rd.Took(peek))
  {
    hide Peek, Pow2, ByteBoundary;
    ghost var p, q, had := rd.Pos(), ByteBoundary(rd.Pos()), rd.next;
    Boundary(rd.next, rd.bk);
    TookIs(rd, peek);
    // go to byte boundary
    rd.DumpBits(rd.bk % 8);
    BoundaryMax(rd.Pos() + LenBits, rd.Pos() + 2 * LenBits);
    // get the length and its complement
    ok, n := rd.ReadBits(LenBits);
    if ok {
      var c;
      ok, c := rd.ReadBits(LenBits);
      if ok {
        TookPlain(rd, had, p, peek);
        ok := n + c == 0xffff;  // otherwise an error in compressed data
      }
    }
  }

  /** `inflate_stored`: "decompress" an inflated type 0 (stored) block. */
  method InflateStored(rd: R.BitReader, win: W.Window, ghost peek: nat) returns (r: nat)
    requires rd.Valid() && win.Valid() && win.size >= WSIZE && rd.Took(peek)
    modifies rd, win, win.slide
    ensures rd.Valid() && win.Valid()
    ensures var o := Stored(rd.input, old(rd.Pos()), old(win.History()), peek);
            && (r == 0 <==> o.Done? && o.peek <= BitLen(rd.input))
            && (r == 0 ==> o.hist == win.History() && o.pos == rd.Pos() && rd.Took(o.peek))
  {
    hide Peek, Pow2, W.Hist, ByteBoundary;
    ghost var q, h := ByteBoundary(rd.Pos()), win.History();
    TookIs(rd, peek);
    var ok, n := StoredHeader(rd, peek);
    if !ok {
      return 1;
    }
    // read and output the compressed data
    var i := 0;
    while i < n
      invariant 0 <= i <= n && rd.Valid() && win.Valid() && rd.Took(peek)
      invariant rd.Pos() == 8 * (q + 4 + i) && q + 4 + i <= |rd.input|
      invariant win.History() == h + rd.input[q + 4..q + 4 + i]
    {
      var b;
      ghost var had := rd.next;
      ok, b := rd.ReadBits(ByteBits);
      if !ok {
        return 1;
      }
      TookPlain(rd, had, 8 * (q + 4 + i), peek);
      PeekByte(rd.input, q + 4 + i, ByteBits);
      win.Put(b);
      i := i + 1;
    }
    return 0;
  }

  const ByteBits: nat := 8

  // ----- inflate_dynamic: the code length code

  lemma BorderInverse(j: nat)
    requires j < 19
    ensures Border[j] < 19 && BorderIndex(Border[j]) == j
  {
    if j < 5 {
    } else if j < 10 {
    } else if j < 15 {
    } else {
    }
  }

  const CodeLenBits: nat := 3

  /** The first 19 entries of `ll` hold the code length code lengths sent in the first `j` places. */
  ghost predicate SentSoFar(input: seq<Byte>, p: nat, nb: nat, ll: seq<nat>, j: nat) {
    19 <= |ll| && forall i :: 0 <= i < 19 && BorderIndex(i) < j ==> ll[i] == CodeLengthAt(input, p, nb, BorderIndex(i))
  }

  lemma SentOne(input: seq<Byte>, p: nat, nb: nat, ll: seq<nat>, j: nat, x: nat)
    requires SentSoFar(input, p, nb, ll, j) && j < 19 && Border[j] < 19 && x == CodeLengthAt(input, p, nb, j)
    ensures SentSoFar(input, p, nb, ll[Border[j] := x], j + 1)
  {
    BorderInverse(j);
    hide CodeLengthAt;
  }

  lemma SentAll(input: seq<Byte>, p: nat, nb: nat, ll: seq<nat>)
    requires SentSoFar(input, p, nb, ll, 19)
    ensures ll[..19] == CodeLengths(input, p, nb) && forall i :: 0 <= i < 19 ==> ll[i] < 8
    ensures Lengths(CodeLengths(input, p, nb))
  {
    hide CodeLengthAt;
    forall i | 0 <= i < 19
      ensures ll[i] == CodeLengthAt(input, p, nb, BorderIndex(i)) < 8
    {
      CodeLengthSmall(input, p, nb, BorderIndex(i));
    }
  }

  lemma CodeLengthSmall(input: seq<Byte>, p: nat, nb: nat, j: nat)
    ensures CodeLengthAt(input, p, nb, j) < 8
  {
    assert Pow2(3) == 8;
    PeekBound(input, p + 3 * j, 3);
  }

  /** Read in bit-length-code lengths; those not sent are zero. */
  method ReadCodeLengths(rd: R.BitReader, nb: nat, ll: array<nat>) returns (ok: bool)
    requires rd.Valid() && nb <= 19 && ll.Length >= 19
    modifies rd, ll
    ensures rd.Valid()
    ensures ok <==> old(rd.Pos()) + 3 * nb <= BitLen(rd.input)
    ensures ok ==> rd.Pos() == old(rd.Pos()) + 3 * nb && ll[..19] == CodeLengths(rd.input, old(rd.Pos()), nb)
    ensures ok ==> rd.next == Max(old(rd.next), ByteBoundary(rd.Pos()))
    ensures ok ==> Lengths(ll[..19]) && forall i :: 0 <= i < 19 ==> ll[i] < 8
  {
    hide Peek, Pow2, Lengths, CodeLengths, SentSoFar, ByteBoundary;
    ghost var p := rd.Pos();
    TookNone(rd);
    SentNone(rd.input, p, nb, ll[..]);
    var j := 0;
    while j < nb
      invariant 0 <= j <= nb && rd.Valid() && rd.Pos() == p + 3 * j
      invariant rd.next == Max(old(rd.next), ByteBoundary(rd.Pos()))
      invariant SentSoFar(rd.input, p, nb, ll[..], j)
    {
      var v;
      ok, v := rd.ReadBits(CodeLenBits);
      if !ok {
        return;
      }
      BoundaryMax(p + 3 * j, rd.Pos());
      BorderInverse(j);
      SentOne(rd.input, p, nb, ll[..], j, v);
      ll[Border[j]] := v;
      j := j + 1;
    }
    while j < 19
      invariant nb <= j <= 19 && rd.Valid() && rd.Pos() == p + 3 * nb
      invariant rd.next == Max(old(rd.next), ByteBoundary(rd.Pos()))
      invariant SentSoFar(rd.input, p, nb, ll[..], j)
    {
      BorderInverse(j);
      SentOne(rd.input, p, nb, ll[..], j, 0);
      ll[Border[j]] := 0;
      j := j + 1;
    }
    SentAll(rd.input, p, nb, ll[..]);
    assert ll[..][..19] == ll[..19];
    ok := true;
  }

  lemma SentNone(input: seq<Byte>, p: nat, nb: nat, ll: seq<nat>)
    requires 19 <= |ll|
    ensures SentSoFar(input, p, nb, ll, 0)
  {
  }

  // ----- inflate_dynamic: the run-length coded lengths

  /** A usable code leaves no bits without a symbol, or is a single one-bit code word. */
  lemma UsableIs(b: seq<nat>)
    requires UsableCode(b) && Lengths(b)
    ensures Kraft(b) == Pow2(16) || Lone(b)
  {
    if Kraft(b) != Pow2(16) {
      CountZero(b);
      KraftIsWeight(b);
      forall k: nat | 2 <= k <= 16 ensures Count(b, k) == 0 {
        CountBeyond(b, k);
      }
      WeightFlat(b, 1, 16);
      assert Weight(b, 1) == Weight(b, 0) + Count(b, 1) * Pow2(15) && Weight(b, 0) == 0;
      assert Pow2(16) == 2 * Pow2(15);
      hide Weight, Pow2, Kraft;
      if Count(b, 1) >= 2 {
        MulMono(2, Count(b, 1), Pow2(15));
      }
    }
  }

  /** In a single table the walk is one look. */
  lemma SingleTable(t: seq<seq<Huft>>, bl: nat, x: nat)
    requires WellLinked(t, bl) && |t| == 1
    ensures Low(bl, x) < |t[0]| && Walk(t, 0, bl, x) == Found(t[0][Low(bl, x)], 0, bl) && !t[0][Low(bl, x)].Link()
  {
    var ent := t[0][Low(bl, x)];
    assert ent.Link() ==> LinkTo(t, 0, ent);
  }

  /** What the single look at the code length table finds. */
  lemma LengthLook(input: seq<Byte>, cl: seq<nat>, t: seq<seq<Huft>>, bl: nat, p: nat)
    requires Decoder(cl, 19, [], [], t, bl) && |t| == 1 && |cl| == 19 && (Covers(cl) || Lone(cl))
    requires p + bl <= BitLen(input)
    ensures |t| > 0 && Peek(input, p, bl) < |t[0]|
    ensures var ent := t[0][Peek(input, p, bl)];
            ent.b <= bl && LengthSymbol(cl, input, p) == Some((ent.n, p + ent.b))
  {
    hide Peek, CodeOf, Rev, MaxLen, Walk;
    var x := Peek(input, p, MaxLen(cl));
    var f := Look(input, cl, t, bl, p);
    assert Resolves(cl, 19, [], [], x, f);
    SingleTable(t, bl, x);
    PeekLow(input, p, MaxLen(cl), bl);
    if Lone(cl) {
      LoneHas(cl);
      var s: nat :| s < |cl| && cl[s] == 1;
      assert LengthSymbol(cl, input, p) == Some((s, p + 1)) by {
        forall s': nat | s' < |cl| && cl[s'] == 1 ensures s' == s {
          LoneUnique(cl, s, s');
        }
      }
      LoneMax(cl);
    } else {
      assert Assigned(cl, x);
      var sym: nat :| Starts(cl, sym, x);
      LengthAtMost(cl, sym);
      HasCodeStarts(cl, sym, input, p, MaxLen(cl));
      SymbolIs(cl, sym, input, p);
    }
  }

  lemma LoneMax(cl: seq<nat>)
    requires Lone(cl)
    ensures MaxLen(cl) == 1
  {
  }

  /** The one table for the code length code, as wide as the longest code. */
  ghost predicate LengthDecoder(cl: seq<nat>, tl: seq<seq<Huft>>, bl: nat) {
    Decoder(cl, 19, [], [], tl, bl) && |tl| == 1 && bl == MaxLen(cl) && |cl| == 19 && (Covers(cl) || Lone(cl))
  }

  /** One symbol of the code length code.  The source never looks at the operation byte of the
      entry it finds. */
  method ReadLengthSymbol(rd: R.BitReader, tl: seq<seq<Huft>>, bl: nat, ghost cl: seq<nat>)
    returns (ok: bool, j: nat)
    requires rd.Valid() && LengthDecoder(cl, tl, bl)
    modifies rd
    ensures rd.Valid()
    ensures ok <==> old(rd.Pos()) + MaxLen(cl) <= BitLen(rd.input)
    ensures ok ==> LengthSymbol(cl, rd.input, old(rd.Pos())) == Some((j, rd.Pos()))
    ensures ok ==> rd.next == Max(old(rd.next), ByteBoundary(old(rd.Pos()) + MaxLen(cl)))
    ensures ok ==> rd.Pos() <= old(rd.Pos()) + MaxLen(cl)
  {
    hide Decoder, Covers, Lone, LengthSymbol, Peek, MaxLen, ByteBoundary;
    ghost var p := rd.Pos();
    j := 0;
    DecoderWidth(cl, 19, [], [], tl, bl);
    ok := rd.NeedBits(bl);
    if ok {
      LengthLook(rd.input, cl, tl, bl, p);
      var v := rd.Masked(bl);
      var ent := tl[0][v];
      rd.DumpBits(ent.b);
      j := ent.n;
    }
  }

  lemma DecoderWidth(b: seq<nat>, s: nat, d: seq<nat>, e: seq<nat>, t: seq<seq<Huft>>, bl: nat)
    requires Decoder(b, s, d, e, t, bl)
    ensures bl <= BMAX
  {
  }

  lemma LengthStuck(input: seq<Byte>, cl: seq<nat>, n: nat, p: nat, acc: seq<nat>, peek: nat)
    requires |acc| < n && p + MaxLen(cl) > BitLen(input)
    ensures var o := ReadLengths(input, cl, n, p, acc, peek); o.NoLengths? || o.peek > BitLen(input)
  {
    hide LengthSymbol, Run, MaxLen;
  }

  /** One step of `ReadLengths`. */
  lemma LengthStep(input: seq<Byte>, cl: seq<nat>, n: nat, p: nat, acc: seq<nat>, peek: nat, s: nat, q: nat)
    requires |acc| < n && LengthSymbol(cl, input, p) == Some((s, q))
    ensures var o := ReadLengths(input, cl, n, p, acc, peek);
            match Run(input, acc, s, q)
            case None => o.NoLengths?
            case Some((run, q')) =>
              if |acc| + |run| > n then o.NoLengths?
              else o == ReadLengths(input, cl, n, q', acc + run, Max(peek, p + MaxLen(cl)))
  {
    hide LengthSymbol, Run, MaxLen;
  }

  /** The extra bits of a code length symbol: how many times to repeat which length. */
  method ReadRun(rd: R.BitReader, j: nat, l: nat, ghost acc: seq<nat>) returns (ok: bool, x: nat, times: nat)
    requires rd.Valid() && l == (if acc == [] then 0 else acc[|acc| - 1])
    modifies rd
    ensures rd.Valid()
    ensures ok ==> times > 0 && Run(rd.input, acc, j, old(rd.Pos())) == Some((Repeat(x, times), rd.Pos()))
    ensures ok ==> old(rd.Pos()) <= rd.Pos() && rd.next == Max(old(rd.next), ByteBoundary(rd.Pos()))
    ensures !ok ==> Run(rd.input, acc, j, old(rd.Pos())).None?
  {
    hide Peek, Pow2, ByteBoundary;
    TookNone(rd);
    ok, x, times := true, 0, 1;
    var v;
    if j < 16 {          // length of code in bits (0..15)
      x := j;
      assert Repeat(j, 1) == [j];
    } else if j == 16 {  // repeat last length 3 to 6 times
      ok, v := rd.ReadBits(2);
      x, times := l, 3 + v;
    } else if j == 17 {  // 3 to 10 zero length codes
      ok, v := rd.ReadBits(3);
      times := 3 + v;
    } else {             // j == 18: 11 to 138 zero length codes
      ok, v := rd.ReadBits(7);
      times := 11 + v;
    }
  }

  /** Read in literal and distance code lengths: the loop fills `ll[..n]`. */
  method ReadTreeLengths(rd: R.BitReader, tl: seq<seq<Huft>>, bl: nat, n: nat, ll: array<nat>,
                         ghost cl: seq<nat>, ghost peek: nat)
    returns (ok: bool)
    requires rd.Valid() && LengthDecoder(cl, tl, bl) && rd.Took(peek) && n <= ll.Length
    modifies rd, ll
    ensures rd.Valid()
    ensures var o := ReadLengths(rd.input, cl, n, old(rd.Pos()), [], peek);
            && (ok <==> o.AllLengths? && o.peek <= BitLen(rd.input))
            && (ok ==> o.l == ll[..n] && o.pos == rd.Pos() && rd.Took(o.peek))
    ensures ok ==> Below16(ll[..n])
  {
    hide LengthDecoder, LengthSymbol, Run, Repeat, ReadLengths, Below16, Peek, MaxLen, ByteBoundary, Max;
    ghost var o := ReadLengths(rd.input, cl, n, rd.Pos(), [], peek);
    ghost var pk := peek;
    var i: nat, l: nat := 0, 0;
    EmptyBelow();
    assert ll[..0] == [];
    while i < n
      invariant i <= n && rd.Valid() && rd.Took(pk)
      invariant ReadLengths(rd.input, cl, n, rd.Pos(), ll[..i], pk) == o
      invariant l == if i == 0 then 0 else ll[i - 1]
      invariant Below16(ll[..i])
    {
      ghost var p, acc, had := rd.Pos(), ll[..i], rd.next;
      var j, x, times;
      ok, j := ReadLengthSymbol(rd, tl, bl, cl);
      if !ok {
        LengthStuck(rd.input, cl, n, p, acc, pk);
        return;
      }
      ghost var q, looked := rd.Pos(), rd.next;
      LengthStep(rd.input, cl, n, p, acc, pk, j, q);
      RunBelow(rd.input, acc, j, q);
      ok, x, times := ReadRun(rd, j, l, acc);
      if !ok {
        return;
      }
      RepeatSize(x, times);
      if i + times > n {
        return false;
      }
      Fill(ll, i, x, times);
      RepeatLast(x, times);
      i, l := i + times, x;
      TookRun(rd, had, looked, p, pk, p + MaxLen(cl));
      pk := Max(pk, p + MaxLen(cl));
    }
    TookIs(rd, pk);
    ReadAll(rd.input, cl, n, rd.Pos(), ll[..n], pk);
    ok := true;
  }

  lemma ReadAll(input: seq<Byte>, cl: seq<nat>, n: nat, p: nat, acc: seq<nat>, peek: nat)
    requires |acc| == n
    ensures ReadLengths(input, cl, n, p, acc, peek) == AllLengths(acc, p, peek)
  {
  }

  // ----- inflate_dynamic

  const HLITBits: nat := 5
  const HDISTBits: nat := 5
  const HCLENBits: nat := 4
  const LBits: nat := 9   // bits in base literal/length lookup table
  const DBits: nat := 6   // bits in base distance lookup table

  lemma FieldBounds(input: seq<Byte>, p: nat)
    ensures Peek(input, p, HLITBits) < 32 && Peek(input, p, HCLENBits) < 16
  {
    assert Pow2(4) == 16 && Pow2(5) == 32;
    hide Pow2, Peek;
    PeekBound(input, p, HLITBits);
    PeekBound(input, p, HCLENBits);
  }

  lemma DynamicIs(input: seq<Byte>, p: nat, h: seq<Byte>, peek: nat, nl: nat, nd: nat, nb: nat)
    requires p + HLITBits + HDISTBits + HCLENBits <= BitLen(input)
    requires nl == 257 + Peek(input, p, HLITBits) && nd == 1 + Peek(input, p + HLITBits, HDISTBits)
    requires nb == 4 + Peek(input, p + HLITBits + HDISTBits, HCLENBits)
    ensures var o := Dynamic(input, p, h, peek);
            if p + 14 + 3 * nb > BitLen(input) then o.Fail?
            else
              var cl := CodeLengths(input, p + 14, nb);
              if !UsableCode(cl) then o.Fail?
              else match ReadLengths(input, cl, nl + nd, p + 14 + 3 * nb, [], peek)
                case NoLengths => o.Fail?
                case AllLengths(l, q, peek') =>
                  if !UsableCode(l[..nl]) || !UsableDistances(l[nl..], nl) then o.Fail?
                  else o == Codes(input, l[..nl], l[nl..], DynamicLimits, q, h, peek') && (o.Done? ==> peek' <= o.peek)
  {
    hide Peek, CodeLengths, UsableCode, UsableDistances, ReadLengths, Codes;
  }

  lemma DynamicShort(input: seq<Byte>, p: nat, h: seq<Byte>, peek: nat)
    requires p + HLITBits + HDISTBits + HCLENBits > BitLen(input)
    ensures Dynamic(input, p, h, peek).Fail?
  {
    hide Peek, CodeLengths, UsableCode, UsableDistances, ReadLengths, Codes;
  }

  lemma MaxIn(cl: seq<nat>)
    ensures MaxLen(cl) > 0 ==> MaxLen(cl) in cl
  {
  }

  /** Build the code length table; it is always a single one. */
  method BuildLengthTable(cl: seq<nat>) returns (r: nat, tl: seq<seq<Huft>>, bl: nat)
    requires Lengths(cl) && |cl| == 19 && forall i :: 0 <= i < 19 ==> cl[i] < 8
    ensures r == 0 <==> UsableCode(cl)
    ensures r == 0 ==> LengthDecoder(cl, tl, bl)
  {
    hide Decoder, Covers, Lone, Kraft, KraftClass;
    MaxIn(cl);
    r, tl, bl := HuftBuild(cl, 19, [], [], 7);
    if bl == 0 {  // no bit lengths
      r := 1;
    }
    if r == 0 {
      UsableIs(cl);
    }
  }

  /** Build the decoding tables for literal/length and distance codes. */
  method BuildTrees(ll: seq<nat>, dl: seq<nat>)
    returns (r: nat, tl: seq<seq<Huft>>, td: seq<seq<Huft>>, bl: nat, bd: nat)
    requires Lengths(ll) && Lengths(dl)
    ensures r == 0 <==> UsableCode(ll) && UsableDistances(dl, |ll|)
    ensures r == 0 ==> Tables(ll, dl, DynamicLimits, tl, td, bl, bd)
  {
    hide Decoder, Asks, Covers, Kraft, KraftClass, MaxLen;
    td, bd := [], 0;
    ListsOK();
    r, tl, bl := HuftBuild(ll, 257, Cplens, Cplext, LBits);
    if bl == 0 {  // no literals or lengths
      r := 1;
    }
    if r != 0 {   // incomplete code set
      return;
    }
    r, td, bd := HuftBuild(dl, 0, Cpdist, Cpdext, DBits);
    if bd == 0 && |ll| > 257 {  // lengths but no distances
      return 1, tl, td, bl, bd;
    }
    ClassIs(dl);
    if r == 1 {
      r := 0;     // an incomplete distance code is accepted
    }
  }

  /** Read in table lengths. */
  method ReadTableSizes(rd: R.BitReader) returns (ok: bool, nl: nat, nd: nat, nb: nat)
    requires rd.Valid()
    modifies rd
    ensures rd.Valid()
    ensures ok <==> old(rd.Pos()) + 14 <= BitLen(rd.input)
    ensures ok ==> rd.next == Max(old(rd.next), ByteBoundary(rd.Pos()))
    ensures ok ==>
              var p := old(rd.Pos());
              && rd.Pos() == p + 14
              && nl == 257 + Peek(rd.input, p, HLITBits) <= 288
              && nd == 1 + Peek(rd.input, p + HLITBits, HDISTBits) <= 32
              && nb == 4 + Peek(rd.input, p + HLITBits + HDISTBits, HCLENBits) <= 19
  {
    hide Peek, Pow2, ByteBoundary;
    ghost var p := rd.Pos();
    BoundaryMax(p + HLITBits, p + 14);
    BoundaryMax(p + HLITBits + HDISTBits, p + 14);
    FieldBounds(rd.input, p);
    FieldBounds(rd.input, p + HLITBits);
    FieldBounds(rd.input, p + HLITBits + HDISTBits);
    nl, nd, nb := 0, 0, 0;
    ok, nl := rd.ReadBits(HLITBits);
    nl := 257 + nl;
    if ok {
      ok, nd := rd.ReadBits(HDISTBits);
      nd := 1 + nd;
    }
    if ok {
      ok, nb := rd.ReadBits(HCLENBits);
      nb := 4 + nb;
    }
  }

  lemma LengthsOf(l: seq<nat>, i: nat, j: nat)
    requires Below16(l) && i < j <= |l| && j - i <= N_MAX
    ensures Lengths(l[i..j])
  {
  }

  /** From the table sizes to the decoding tables. */
  method ReadTrees(rd: R.BitReader, nl: nat, nd: nat, nb: nat, ghost peek: nat)
    returns (r: nat, tl: seq<seq<Huft>>, td: seq<seq<Huft>>, bl: nat, bd: nat, ghost l: seq<nat>, ghost peek': nat)
    requires rd.Valid() && 257 <= nl <= 288 && 1 <= nd <= 32 && nb <= 19 && rd.Took(peek)
    modifies rd
    ensures rd.Valid()
    ensures var p := old(rd.Pos());
            var cl := CodeLengths(rd.input, p, nb);
            var o := ReadLengths(rd.input, cl, nl + nd, p + 3 * nb, [], peek);
            && (r == 0 <==>
                 && p + 3 * nb <= BitLen(rd.input) && UsableCode(cl)
                 && o.AllLengths? && o.peek <= BitLen(rd.input)
                 && UsableCode(o.l[..nl]) && UsableDistances(o.l[nl..], nl))
            && (r == 0 ==>
                 && o == AllLengths(l, rd.Pos(), peek') && |l| == nl + nd && rd.Took(peek')
                 && Tables(l[..nl], l[nl..], DynamicLimits, tl, td, bl, bd))
  {
    hide LengthDecoder, Tables, Peek, Pow2, ReadLengths, CodeLengths, UsableCode, UsableDistances, Below16, Lengths, MaxLen, ByteBoundary;
    ghost var p, had := rd.Pos(), rd.next;
    tl, td, bl, bd, l, peek' := [], [], 0, 0, [], peek;
    var ll := new nat[288 + 32];
    var ok := ReadCodeLengths(rd, nb, ll);
    if !ok {
      r := 1;
      return;
    }
    TookPlain(rd, had, p, peek);
    ghost var cl := ll[..19];
    r, tl, bl := BuildLengthTable(ll[..19]);
    if r != 0 {
      return;
    }
    ok := ReadTreeLengths(rd, tl, bl, nl + nd, ll, cl, peek);
    if !ok {
      r := 1;
      return;
    }
    l := ll[..nl + nd];
    peek' := ReadLengths(rd.input, cl, nl + nd, p + 3 * nb, [], peek).peek;
    LengthsOf(l, 0, nl);
    LengthsOf(l, nl, nl + nd);
    assert l[0..nl] == ll[..nl] == l[..nl] && l[nl..nl + nd] == ll[nl..nl + nd] == l[nl..];
    r, tl, td, bl, bd := BuildTrees(ll[..nl], ll[nl..nl + nd]);
  }

  /** `inflate_dynamic`: decompress an inflated type 2 (dynamic Huffman codes) block. */
  method InflateDynamic(rd: R.BitReader, win: W.Window, ghost peek: nat) returns (r: nat)
    requires rd.Valid() && win.Valid() && win.size >= WSIZE && rd.Took(peek)
    modifies rd, win, win.slide
    ensures rd.Valid() && win.Valid()
    ensures var o := Dynamic(rd.input, old(rd.Pos()), old(win.History()), peek);
            && (r == 0 <==> o.Done? && o.peek <= BitLen(rd.input))
            && (r == 0 ==> o.hist == win.History() && o.pos == rd.Pos() && rd.Took(o.peek))
  {
    hide Decoder, Asks, Peek, Pow2, W.Hist, Dynamic, Codes, ReadLengths, CodeLengths, UsableCode, UsableDistances, MaxLen, ByteBoundary;
    ghost var p, h, had := rd.Pos(), win.History(), rd.next;
    var ok, nl, nd, nb := ReadTableSizes(rd);
    if !ok {
      DynamicShort(rd.input, p, h, peek);
      return 1;
    }
    TookPlain(rd, had, p, peek);
    // Five bits cannot make nl > 288 or nd > 32, so the source's test for bad lengths is idle.
    DynamicIs(rd.input, p, h, peek, nl, nd, nb);
    var tl, td, bl, bd; ghost var l, peek';
    r, tl, td, bl, bd, l, peek' := ReadTrees(rd, nl, nd, nb, peek);
    if r != 0 {
      return;
    }
    r := InflateCodes(rd, win, tl, td, bl, bd, l[..nl], l[nl..], DynamicLimits, peek');
  }

  // ----- inflate_fixed

  lemma FixedShape()
    ensures FixedLengths() == Repeat(8, 144) + Repeat(9, 112) + Repeat(7, 24) + Repeat(8, 8)
    ensures FixedDistances() == [] + Repeat(5, 30)
    ensures [] + Repeat(8, 144) == Repeat(8, 144)
    ensures Kraft([]) == 0 && MaxLen([]) == 0
  {
  }

  lemma FixedKraft()
    ensures KraftClass(FixedLengths()) == 0 && MaxLen(FixedLengths()) == 9
    ensures KraftClass(FixedDistances()) == 1 && MaxLen(FixedDistances()) == 5
  {
    hide *;
    Powers();
    Pow2Add(13, 3);
    FixedShape();
    KraftRun([], 8, 144);
    KraftRun(Repeat(8, 144), 9, 112);
    KraftRun(Repeat(8, 144) + Repeat(9, 112), 7, 24);
    KraftRun(Repeat(8, 144) + Repeat(9, 112) + Repeat(7, 24), 8, 8);
    KraftRun([], 5, 30);
    ClassIs(FixedLengths());
    ClassIs(FixedDistances());
  }

  /** The lengths of the fixed literal code: four loops over one array. */
  method FixedLengthList() returns (l: array<nat>)
    ensures fresh(l) && l.Length == 288 && l[..] == FixedLengths()
  {
    l := new nat[288];
    Fill(l, 0, 8, 144);
    Fill(l, 144, 9, 112);
    Fill(l, 256, 7, 24);
    Fill(l, 280, 8, 8);
    assert l[..288] == l[..];
  }

  ghost predicate FixedTables(tl: seq<seq<Huft>>, td: seq<seq<Huft>>, bl: nat, bd: nat) {
    Tables(FixedLengths(), FixedDistances(), FixedLimits, tl, td, bl, bd)
  }

  lemma FixedAreLengths()
    ensures Lengths(FixedLengths()) && Lengths(FixedDistances())
  {
  }

  method BuildFixedTables() returns (r: nat, tl: seq<seq<Huft>>, td: seq<seq<Huft>>, bl: nat, bd: nat)
    ensures r == 0 && tl != [] && FixedTables(tl, td, bl, bd)
  {
    hide Decoder, Asks, Kraft, KraftClass, MaxLen, FixedLengths, FixedDistances, Lengths, Repeat;
    FixedKraft();
    FixedAreLengths();
    ListsOK();
    td, bd := [], 0;
    var l := FixedLengthList();
    r, tl, bl := HuftBuild(l[..], 257, Cplens, Cplext, 7);
    if r != 0 {
      return;
    }
    Fill(l, 0, 5, 30);   // make an incomplete code set
    FixedDistancesIs();
    assert l[..0 + 30] == l[..30] == Repeat(5, 30);
    r, td, bd := HuftBuild(l[..30], 0, Cpdist, Cpdext, 5);
    if r > 1 {
      return;
    }
    r := 0;
    DecoderNonempty(FixedLengths(), 257, Cplens, Cplext, tl, bl);
  }

  lemma FixedDistancesIs()
    ensures [] + Repeat(5, 30) == Repeat(5, 30) == FixedDistances()
  {
  }

  lemma DecoderNonempty(b: seq<nat>, s: nat, d: seq<nat>, e: seq<nat>, t: seq<seq<Huft>>, bl: nat)
    requires Decoder(b, s, d, e, t, bl)
    ensures t != []
  {
  }

  // ----- inflate_block and inflate

  /** The decoder's globals: input, window, and the fixed tables, built once. */
  class Inflater {
    const rd: R.BitReader
    const win: W.Window
    var fixedTl: seq<seq<Huft>>
    var fixedTd: seq<seq<Huft>>
    var fixedBl: nat
    var fixedBd: nat

    ghost predicate Valid()
      reads this, rd, win, win.slide
    {
      && rd.Valid() && win.Valid() && win.size >= WSIZE
      && (fixedTl != [] ==> FixedTables(fixedTl, fixedTd, fixedBl, fixedBd))
    }

    constructor (input: seq<Byte>, slide: array<Byte>)
      requires slide.Length >= WSIZE
      ensures Valid() && fresh(rd) && fresh(win) && win.slide == slide
      ensures rd.input == input && rd.Pos() == 0 && rd.next == 0
      ensures win.History() == slide[..] && win.pre == slide[..] && win.Written() == []
    {
      rd := new R.BitReader(input);
      win := new W.Window.Over(slide);
      fixedTl, fixedTd, fixedBl, fixedBd := [], [], 0, 0;
    }

    /** `inflate_fixed`: decompress an inflated type 1 (fixed Huffman codes) block. */
    method InflateFixed(ghost peek: nat) returns (r: nat)
      requires Valid() && rd.Took(peek)
      modifies this, rd, win, win.slide
      ensures Valid()
      ensures var o := Codes(rd.input, FixedLengths(), FixedDistances(), FixedLimits, old(rd.Pos()), old(win.History()), peek);
              && (r == 0 <==> o.Done? && o.peek <= BitLen(rd.input))
              && (r == 0 ==> o.hist == win.History() && o.pos == rd.Pos() && rd.Took(o.peek))
    {
      hide Decoder, Asks, Codes, FixedLengths, FixedDistances, MaxLen, KraftClass, W.Hist, Peek;
      FixedKraft();
      if fixedTl == [] {
        var tl, td, bl, bd;
        r, tl, td, bl, bd := BuildFixedTables();
        fixedTl, fixedTd, fixedBl, fixedBd := tl, td, bl, bd;
      }
      r := InflateCodes(rd, win, fixedTl, fixedTd, fixedBl, fixedBd, FixedLengths(), FixedDistances(), FixedLimits, peek);
    }

    /** `inflate_block`: decompress an inflated block; `last` is the last block flag. */
    method InflateBlock(ghost peek: nat) returns (r: nat, last: bool)
      requires Valid() && rd.Took(peek)
      modifies this, rd, win, win.slide
      ensures Valid()
      ensures var p := old(rd.Pos());
              if p + 3 > BitLen(rd.input) then r != 0
              else
                var o := Block(rd.input, Peek(rd.input, p + 1, 2), p + 3, old(win.History()), peek);
                && (r == 0 <==> o.Done? && o.peek <= BitLen(rd.input))
                && (r == 0 ==> o.hist == win.History() && o.pos == rd.Pos() && rd.Took(o.peek))
                && (r == 0 ==> last == (BitAt(rd.input, p) == 1))
    {
      hide Codes, Stored, Dynamic, FixedLengths, FixedDistances, W.Hist, Peek, FixedTables, ByteBoundary;
      last := false;
      ghost var p, had := rd.Pos(), rd.next;
      BoundaryMax(p + 1, p + 3);
      PeekOne(rd.input, rd.Pos());
      // read in last block bit
      var ok, e := rd.ReadBits(1);
      if !ok {
        return 1, last;
      }
      last := e == 1;
      // read in block type
      var t;
      ok, t := rd.ReadBits(2);
      if !ok {
        return 1, last;
      }
      TookPlain(rd, had, p, peek);
      // inflate that block type
      if t == 2 {
        r := InflateDynamic(rd, win, peek);
      } else if t == 0 {
        r := InflateStored(rd, win, peek);
      } else if t == 1 {
        r := InflateFixed(peek);
      } else {
        r := 2;  // bad block type
      }
    }

    /** `inflate`: decompress an inflated entry. */
    method Inflate() returns (r: nat)
      requires Valid() && rd.Pos() == 0 && rd.next == 0 && win.Written() == []
      modifies this, rd, win, win.slide
      ensures rd.Valid() && Refines(rd.input, win.pre, r, win.out, rd.Pos(), rd.next)
    {
      hide Block, W.Hist, Peek, FixedTables, Refines;
      W.HistIs(win.pre, win.out, win.slide[..], win.w);
      assert win.pre + [] == win.pre;
      ghost var o := Stream(rd.input, 0, win.pre, 0);
      ghost var peek := 0;
      var last := false;
      while !last
        invariant Valid() && rd.Took(peek)
        invariant if last then o == Done(win.History(), rd.Pos(), peek)
                  else Stream(rd.input, rd.Pos(), win.History(), peek) == o
        decreases !last, BitLen(rd.input) - rd.Pos()
      {
        ghost var p, h := rd.Pos(), win.History();
        StreamStep(rd.input, p, h, peek);
        r, last := InflateBlock(peek);
        if r != 0 {
          RefinesFail(rd.input, win.pre, r, win.out, rd.Pos(), rd.next);
          return;
        }
        peek := Block(rd.input, Peek(rd.input, p + 1, 2), p + 3, h, peek).peek;
      }
      W.HistIs(win.pre, win.out, win.slide[..], win.w);
      win.Flush();
      r := 0;
      TookIs(rd, peek);
      RefinesDone(rd.input, win.pre, win.out, rd.Pos(), rd.next);
    }
  }

  /** What `inflate` owes its caller.  It succeeds exactly if the stream has a meaning and no bit
      past the end of the member was asked for; then what it has flushed is what the stream means
      after `pre`, the initial contents of the window, and the bytes `taken` are those that the
      stream is in, or those that were looked at, if that is further. */
  ghost predicate Refines(input: seq<Byte>, pre: seq<Byte>, r: nat, out: seq<Byte>, pos: nat, taken: nat) {
    var o := Stream(input, 0, pre, 0);
    && (r == 0 <==> o.Done? && o.peek <= BitLen(input))
    && (r == 0 ==> o.hist == pre + out && o.pos == pos && taken == ByteBoundary(Max(o.pos, o.peek)))
  }

  /** For a stream that has a meaning of its own, that is, whose distances stay within its own
      output: there is success exactly if no look-up passes the end of the member, which none does
      if fourteen more bits follow the stream; and success means exactly that output. */
  lemma InflateCorrect(input: seq<Byte>, pre: seq<Byte>, r: nat, out: seq<Byte>, pos: nat, taken: nat)
    requires Refines(input, pre, r, out, pos, taken) && Stream(input, 0, [], 0).Done?
    ensures var o := Stream(input, 0, [], 0);
            && (r == 0 <==> o.peek <= BitLen(input))
            && (r == 0 ==> o.hist == out && o.pos == pos && taken == ByteBoundary(Max(o.pos, o.peek)))
            && (o.pos + 14 <= BitLen(input) ==> r == 0 && taken <= ByteBoundary(o.pos + 14))
  {
    hide Stream;
    StreamFrame(pre, input, 0, [], 0);
    assert pre + [] == pre;
    StreamNear(input, 0, [], 0);
    var o := Stream(input, 0, [], 0);
    assert r == 0 ==> (pre + o.hist)[|pre|..] == (pre + out)[|pre|..];
  }

  lemma RefinesDone(input: seq<Byte>, pre: seq<Byte>, out: seq<Byte>, pos: nat, taken: nat)
    requires var o := Stream(input, 0, pre, 0);
             o.Done? && o.peek <= BitLen(input) && o.hist == pre + out && o.pos == pos && taken == ByteBoundary(Max(o.pos, o.peek))
    ensures Refines(input, pre, 0, out, pos, taken)
  {
  }

  lemma RefinesFail(input: seq<Byte>, pre: seq<Byte>, r: nat, out: seq<Byte>, pos: nat, taken: nat)
    requires r != 0
    requires var o := Stream(input, 0, pre, 0); o.Fail? || o.peek > BitLen(input)
    ensures Refines(input, pre, r, out, pos, taken)
  {
  }
}
