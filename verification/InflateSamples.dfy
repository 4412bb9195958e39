/** Two streams on which `inflate` and the format disagree: a valid one that it refuses, and one
  that it accepts although it is not valid. */
module InflateSamples {
  import opened Wrappers
  import opened Bits
  import opened BitStream
  import opened Canonical
  import T = HuftTable
  import opened Huffman
  import opened HuftWidth
  import opened Runs
  import opened Rfc1951
  import opened Rfc1951Facts
  import opened Rfc1951Strict
  import opened InflateBlocks
  import opened InflateValid

  /** One dynamic block without output.  Code lengths are coded with two bits for 18, three for
      0 and 2, one for 1; literals 255 and 256 and distance 0 have one bit each; the
      end-of-block code is the last bit. */
  const Short: seq<Byte> := [0x05, 0xc0, 0x01, 0x0d, 0x00, 0x00, 0x00, 0xc0, 0x90, 0xfe, 0xa5, 0x87]

  function ShortCl(): (l: seq<nat>)
    ensures |l| == 19
  {
    [3, 1, 3] + Repeat(0, 15) + [2]
  }

  /** The same with thirty more literal/length codes, all unused: 287 are one more than the
      format allows. */
  const Long: seq<Byte> :=
    [0xf5, 0xc0, 0x01, 0x0d, 0x00, 0x00, 0x00, 0xc0, 0x90, 0xfe, 0xa5, 0x47, 0x13, 0x01]

  ghost predicate StartsShort(input: seq<Byte>) {
    |input| >= 12 && input[..12] == Short
  }

  /** What the two have in common. */
  ghost predicate Middle(input: seq<Byte>) {
    && |input| >= 12
    && input[1] == 0xc0 && input[2] == 0x01 && input[3] == 0x0d && input[4] == 0 && input[5] == 0
    && input[6] == 0 && input[7] == 0xc0 && input[8] == 0x90 && input[9] == 0xfe && input[10] == 0xa5
  }

  lemma ShortBytes(input: seq<Byte>)
    requires StartsShort(input)
    ensures Middle(input) && input[0] == 0x05 && input[11] == 0x87
  {
    forall i | 0 <= i < 12 ensures input[i] == Short[i] {
      assert input[..12][i] == input[i];
    }
  }

  /** The bits of a byte, lowest first. */
  lemma ByteBits(input: seq<Byte>, q: nat, x: nat, b0: nat, b1: nat, b2: nat, b3: nat, b4: nat, b5: nat, b6: nat, b7: nat)
    requires q < |input| && input[q] == x
    requires Shr(x, 0) % 2 == b0 && Shr(x, 1) % 2 == b1 && Shr(x, 2) % 2 == b2 && Shr(x, 3) % 2 == b3
    requires Shr(x, 4) % 2 == b4 && Shr(x, 5) % 2 == b5 && Shr(x, 6) % 2 == b6 && Shr(x, 7) % 2 == b7
    ensures BitAt(input, 8 * q) == b0 && BitAt(input, 8 * q + 1) == b1
    ensures BitAt(input, 8 * q + 2) == b2 && BitAt(input, 8 * q + 3) == b3
    ensures BitAt(input, 8 * q + 4) == b4 && BitAt(input, 8 * q + 5) == b5
    ensures BitAt(input, 8 * q + 6) == b6 && BitAt(input, 8 * q + 7) == b7
  {
    hide Shr, BitAt;
    BitIn(input, q, 0);
    BitIn(input, q, 1);
    BitIn(input, q, 2);
    BitIn(input, q, 3);
    BitIn(input, q, 4);
    BitIn(input, q, 5);
    BitIn(input, q, 6);
    BitIn(input, q, 7);
  }

  lemma BitIn(input: seq<Byte>, q: nat, k: nat)
    requires q < |input| && k < 8
    ensures BitAt(input, 8 * q + k) == Shr(input[q], k) % 2
  {
    hide Shr;
  }

  lemma Header(input: seq<Byte>)
    requires Middle(input) && (input[0] == 0x05 || input[0] == 0xf5)
    ensures BitAt(input, 0) == 1 && Peek(input, 1, 2) == 2
    ensures Peek(input, 3, 5) == if input[0] == 0x05 then 0 else 30
    ensures Peek(input, 8, 5) == 0 && Peek(input, 13, 4) == 14
  {
    hide BitAt;
    if input[0] == 0x05 {
      ByteBits(input, 0, 5, 1, 0, 1, 0, 0, 0, 0, 0);
    } else {
      ByteBits(input, 0, 0xf5, 1, 0, 1, 0, 1, 1, 1, 1);
    }
    ByteBits(input, 1, 192, 0, 0, 0, 0, 0, 0, 1, 1);
    ByteBits(input, 2, 1, 1, 0, 0, 0, 0, 0, 0, 0);
  }

  lemma Three(input: seq<Byte>, p: nat)
    ensures Peek(input, p, 3) == BitAt(input, p) + 2 * BitAt(input, p + 1) + 4 * BitAt(input, p + 2)
  {
  }

  lemma Sent1(input: seq<Byte>)
    requires Middle(input)
    ensures Peek(input, 17, 3) == 0 && Peek(input, 20, 3) == 0 && Peek(input, 23, 3) == 2
    ensures Peek(input, 26, 3) == 3 && Peek(input, 29, 3) == 0 && Peek(input, 32, 3) == 0
  {
    hide BitAt, Peek;
    ByteBits(input, 2, 1, 1, 0, 0, 0, 0, 0, 0, 0);
    ByteBits(input, 3, 13, 1, 0, 1, 1, 0, 0, 0, 0);
    ByteBits(input, 4, 0, 0, 0, 0, 0, 0, 0, 0, 0);
    Three(input, 17);
    Three(input, 20);
    Three(input, 23);
    Three(input, 26);
    Three(input, 29);
    Three(input, 32);
  }

  lemma Sent2(input: seq<Byte>)
    requires Middle(input)
    ensures Peek(input, 35, 3) == 0 && Peek(input, 38, 3) == 0 && Peek(input, 41, 3) == 0
    ensures Peek(input, 44, 3) == 0 && Peek(input, 47, 3) == 0 && Peek(input, 50, 3) == 0
  {
    hide BitAt, Peek;
    ByteBits(input, 4, 0, 0, 0, 0, 0, 0, 0, 0, 0);
    ByteBits(input, 5, 0, 0, 0, 0, 0, 0, 0, 0, 0);
    ByteBits(input, 6, 0, 0, 0, 0, 0, 0, 0, 0, 0);
    Three(input, 35);
    Three(input, 38);
    Three(input, 41);
    Three(input, 44);
    Three(input, 47);
    Three(input, 50);
  }

  lemma Sent3(input: seq<Byte>)
    requires Middle(input)
    ensures Peek(input, 53, 3) == 0 && Peek(input, 56, 3) == 0 && Peek(input, 59, 3) == 0
    ensures Peek(input, 62, 3) == 3 && Peek(input, 65, 3) == 0 && Peek(input, 68, 3) == 1
  {
    hide BitAt, Peek;
    ByteBits(input, 6, 0, 0, 0, 0, 0, 0, 0, 0, 0);
    ByteBits(input, 7, 192, 0, 0, 0, 0, 0, 0, 1, 1);
    ByteBits(input, 8, 144, 0, 0, 0, 0, 1, 0, 0, 1);
    Three(input, 53);
    Three(input, 56);
    Three(input, 59);
    Three(input, 62);
    Three(input, 65);
    Three(input, 68);
  }

  lemma Sent(input: seq<Byte>)
    requires Middle(input)
    ensures CodeLengths(input, 17, 18) == ShortCl()
  {
    hide BitAt, Peek, Middle;
    Sent1(input);
    Sent2(input);
    Sent3(input);
  }

  // ----- the codes

  lemma Push(l: seq<nat>, x: nat, k: nat)
    ensures Count(l + [x], k) == Count(l, k) + (if x == k then 1 else 0)
    ensures Kraft(l + [x]) == Kraft(l) + (if 0 < x <= 16 then Pow2(16 - x) else 0)
    ensures MaxLen(l + [x]) == if MaxLen(l) < x then x else MaxLen(l)
  {
    var m := l + [x];
    assert m[..|m| - 1] == l && m[|m| - 1] == x;
  }

  lemma {:induction false} PushZeros(l: seq<nat>, n: nat, k: nat)
    requires k > 0
    ensures Count(l + Repeat(0, n), k) == Count(l, k)
    ensures Kraft(l + Repeat(0, n)) == Kraft(l) && MaxLen(l + Repeat(0, n)) == MaxLen(l)
    decreases n
  {
    if n > 0 {
      PushZeros(l, n - 1, k);
      assert l + Repeat(0, n) == (l + Repeat(0, n - 1)) + [0];
      Push(l + Repeat(0, n - 1), 0, k);
    } else {
      assert l + Repeat(0, n) == l;
    }
  }

  lemma HighPowers()
    ensures Pow2(13) == 0x2000 && Pow2(14) == 0x4000 && Pow2(15) == 0x8000 && Pow2(16) == 0x10000
  {
    assert Pow2(8) == 256;
    Pow2Add(8, 5);
    Pow2Add(8, 6);
    Pow2Add(8, 7);
    Pow2Add(8, 8);
  }

  /** Counts and sum of the code length code. */
  lemma ShortClCounts(k: nat)
    requires k > 0
    ensures Count(ShortCl(), k) == if k == 3 then 2 else if k == 1 || k == 2 then 1 else 0
    ensures Count(ShortCl()[..18], k) == if k == 3 then 2 else if k == 1 then 1 else 0
    ensures Count(ShortCl()[..0], k) == 0 && Count(ShortCl()[..1], k) == if k == 3 then 1 else 0
    ensures Complete(ShortCl()) && MaxLen(ShortCl()) == 3
  {
    hide Count, Kraft, MaxLen, Pow2, ShortCl;
    HighPowers();
    NoCodes(k);
    FirstThree(k);
    var l, z := [3, 1, 3], Repeat(0, 15);
    PushZeros(l, 15, k);
    Push(l + z, 2, k);
    ShortClParts();
  }

  lemma FirstThree(k: nat)
    ensures Count([3], k) == (if k == 3 then 1 else 0)
    ensures Count([3, 1, 3], k) == if k == 3 then 2 else if k == 1 then 1 else 0
    ensures Kraft([3, 1, 3]) == 2 * Pow2(13) + Pow2(15) && MaxLen([3, 1, 3]) == 3
  {
    hide Count, Kraft, MaxLen, Pow2;
    NoCodes(k);
    Push([], 3, k);
    Push([3], 1, k);
    Push([3, 1], 3, k);
    assert [] + [3] == [3] && [3] + [1] == [3, 1] && [3, 1] + [3] == [3, 1, 3];
  }

  lemma ShortClParts()
    ensures ShortCl() == [3, 1, 3] + Repeat(0, 15) + [2] && ShortCl()[..18] == [3, 1, 3] + Repeat(0, 15)
    ensures ShortCl()[..1] == [3] && ShortCl()[..0] == []
    ensures ShortCl()[0] == 3 && ShortCl()[1] == 1 && ShortCl()[18] == 2
  {
  }

  lemma NoCodes(k: nat)
    ensures Count([], k) == 0 && Kraft([]) == 0 && MaxLen([]) == 0
  {
  }

  lemma ShortClCodes()
    ensures CodeOf(ShortCl(), 18) == 2 && CodeOf(ShortCl(), 0) == 6 && CodeOf(ShortCl(), 1) == 0
  {
    ShortClCounts(1);
    ShortClCounts(2);
    ShortClCounts(3);
    ShortClParts();
    hide Count, Kraft, ShortCl;
    assert FirstCode(ShortCl(), 1) == 0;
    assert FirstCode(ShortCl(), 2) == 2;
    assert FirstCode(ShortCl(), 3) == 6;
  }

  /** The literal/length code of the block. */
  function ShortLl(): (l: seq<nat>)
    ensures |l| == 257
  {
    Repeat(0, 255) + [1, 1]
  }

  lemma ShortLlCode()
    ensures Complete(ShortLl()) && CodeOf(ShortLl(), 256) == 1 && ShortLl()[256] == 1
  {
    hide Count, Kraft, MaxLen, Pow2, Repeat, ShortLl, FirstCode;
    HighPowers();
    NoCodes(1);
    var z := Repeat(0, 255);
    PushZeros([], 255, 1);
    Push(z, 1, 1);
    Push(z + [1], 1, 1);
    assert [] + z == z;
    ShortLlParts();
    FirstOne(ShortLl());
  }

  lemma OneIsLone()
    ensures Lone([1])
  {
    NoCodes(1);
    Push([], 1, 1);
    assert [] + [1] == [1];
  }

  lemma ShortLlParts()
    ensures ShortLl() == Repeat(0, 255) + [1] + [1] && ShortLl()[..256] == Repeat(0, 255) + [1]
    ensures ShortLl()[256] == 1
  {
  }

  lemma FirstOne(l: seq<nat>)
    ensures FirstCode(l, 1) == 0
  {
  }

  // ----- reading the block

  lemma MsbShort(input: seq<Byte>, p: nat)
    ensures Msb(input, p, 1) == BitAt(input, p)
    ensures Msb(input, p, 2) == 2 * BitAt(input, p) + BitAt(input, p + 1)
    ensures Msb(input, p, 3) == 4 * BitAt(input, p) + 2 * BitAt(input, p + 1) + BitAt(input, p + 2)
  {
    assert Msb(input, p, 0) == 0;
    assert Msb(input, p, 1) == 2 * Msb(input, p, 0) + BitAt(input, p + 1 - 1);
    assert Msb(input, p, 2) == 2 * Msb(input, p, 1) + BitAt(input, p + 2 - 1);
  }

  lemma CodeBits1(input: seq<Byte>)
    requires Middle(input)
    ensures Msb(input, 71, 2) == 2 && Peek(input, 73, 7) == 127
  {
    hide BitAt, Msb;
    MsbShort(input, 71);
    ByteBits(input, 8, 144, 0, 0, 0, 0, 1, 0, 0, 1);
    ByteBits(input, 9, 254, 0, 1, 1, 1, 1, 1, 1, 1);
  }

  lemma CodeBits2(input: seq<Byte>)
    requires Middle(input) && BitAt(input, 88) == 1
    ensures Msb(input, 80, 2) == 2 && Peek(input, 82, 7) == 105
  {
    hide BitAt, Msb;
    MsbShort(input, 80);
    ByteBits(input, 10, 165, 1, 0, 1, 0, 0, 1, 0, 1);
  }

  lemma CodeBits3(input: seq<Byte>)
    requires StartsShort(input)
    ensures BitAt(input, 88) == 1 && Msb(input, 89, 3) == 6
    ensures Msb(input, 92, 1) == 0 && Msb(input, 93, 1) == 0 && Msb(input, 94, 1) == 0 && Msb(input, 95, 1) == 1
  {
    hide BitAt, Msb;
    MsbShort(input, 89);
    MsbShort(input, 92);
    MsbShort(input, 93);
    MsbShort(input, 94);
    MsbShort(input, 95);
    ShortBytes(input);
    ByteBits(input, 11, 135, 1, 1, 1, 0, 0, 0, 0, 1);
  }

  /** One code length symbol and what it stands for. */
  lemma StrictStep(input: seq<Byte>, cl: seq<nat>, n: nat, p: nat, acc: seq<nat>, peek: nat, s: nat, run: seq<nat>, q: nat)
    requires HasCode(cl, s, input, p) && s < |cl| && p + cl[s] <= BitLen(input) && (s == 16 ==> acc != [])
    requires Run(input, acc, s, p + cl[s]) == Some((run, q)) && |acc| + |run| <= n && |acc| < n
    ensures ValidLengths(input, cl, n, p, acc, peek) == ValidLengths(input, cl, n, q, acc + run, Max(peek, p + MaxLen(cl)))
  {
    hide Symbol, Run, MaxLen, HasCode;
    SymbolIs(cl, s, input, p);
  }

  /** The two runs of zeros. */
  lemma ShortZeros(input: seq<Byte>, n: nat)
    requires Middle(input) && n >= 258 && BitAt(input, 88) == 1
    ensures ValidLengths(input, ShortCl(), n, 71, [], 0) == ValidLengths(input, ShortCl(), n, 89, Repeat(0, 254), 83)
  {
    hide Peek, Msb, CodeOf, MaxLen, ValidLengths, Count, Kraft, ShortCl;
    ShortClParts();
    CodeBits1(input);
    CodeBits2(input);
    ShortClCodes();
    ShortClCounts(1);
    var z1, z2 := Repeat(0, 138), Repeat(0, 116);
    StrictStep(input, ShortCl(), n, 71, [], 0, 18, z1, 80);
    StrictStep(input, ShortCl(), n, 80, [] + z1, 74, 18, z2, 89);
    assert [] + z1 + z2 == Repeat(0, 254);
  }

  /** The step of a plain length. */
  lemma PlainStep(input: seq<Byte>, n: nat, p: nat, acc: seq<nat>, peek: nat, s: nat)
    requires s < 2 && |acc| < n && p + ShortCl()[s] <= BitLen(input)
    requires Msb(input, p, ShortCl()[s]) == if s == 0 then 6 else 0
    ensures ValidLengths(input, ShortCl(), n, p, acc, peek)
            == ValidLengths(input, ShortCl(), n, p + ShortCl()[s], acc + [s], Max(peek, p + 3))
  {
    hide Peek, Msb, CodeOf, MaxLen, ValidLengths, Count, Kraft, ShortCl;
    ShortClParts();
    ShortClCodes();
    ShortClCounts(1);
    StrictStep(input, ShortCl(), n, p, acc, peek, s, [s], p + ShortCl()[s]);
  }

  /** Zeros up to literal 254, then three codes of one bit. */
  lemma ShortLengths(input: seq<Byte>)
    requires StartsShort(input)
    ensures ValidLengths(input, ShortCl(), 258, 71, [], 0) == AllLengths(ShortLl() + [1], 95, 97)
  {
    hide Peek, Msb, CodeOf, MaxLen, ValidLengths, Count, Kraft, StartsShort, Middle, BitAt, Complete, ShortCl;
    ShortClParts();
    ShortBytes(input);
    CodeBits3(input);
    ShortZeros(input, 258);
    var z := Repeat(0, 254);
    PlainStep(input, 258, 89, z, 83, 0);
    PlainStep(input, 258, 92, z + [0], 92, 1);
    PlainStep(input, 258, 93, z + [0] + [1], 95, 1);
    PlainStep(input, 258, 94, z + [0] + [1] + [1], 96, 1);
    assert z + [0] + [1] + [1] + [1] == ShortLl() + [1];
    StrictDone(input, ShortCl(), 258, 95, ShortLl() + [1], 97);
  }

  lemma StrictDone(input: seq<Byte>, cl: seq<nat>, n: nat, p: nat, acc: seq<nat>, peek: nat)
    requires |acc| == n
    ensures ValidLengths(input, cl, n, p, acc, peek) == AllLengths(acc, p, peek)
  {
  }

  lemma ShortDynamic(input: seq<Byte>)
    requires StartsShort(input)
    ensures ValidDynamic(input, 3, [], 0) == Done([], 96, 97)
  {
    hide Peek, BitAt, Msb, CodeOf, MaxLen, Complete, Lone, Codes, CodeLengths, ValidLengths, ShortLl, ShortCl;
    ShortBytes(input);
    Header(input);
    Sent(input);
    ShortLengths(input);
    ShortClCounts(1);
    ShortLlCode();
    OneIsLone();
    ShortCodes(input);
    var l := ShortLl() + [1];
    assert l[..257] == ShortLl() && l[257..] == [1];
    assert ValidTables(input, 3, 0) == AllLengths(l, 95, 97);
  }

  /** The compressed data is the end-of-block code. */
  lemma ShortCodes(input: seq<Byte>)
    requires StartsShort(input)
    ensures Codes(input, ShortLl(), [1], DynamicLimits, 95, [], 97) == Done([], 96, 97)
  {
    hide Peek, BitAt, Msb, CodeOf, Codes, ShortLl, Complete;
    ShortLlCode();
    CodeBits3(input);
    SymbolIs(ShortLl(), 256, input, 95);
    CodesEnd(input, ShortLl(), [1], DynamicLimits, 95, [], 97, 96);
  }

  /** The stream means the empty output and ends with its twelfth byte, and the last code length
      was looked up with one bit more. */
  lemma ShortMeaning(input: seq<Byte>)
    requires StartsShort(input)
    ensures ValidStream(input, 0, [], 0) == Done([], 96, 97)
  {
    ShortBytes(input);
    Header(input);
    ShortDynamic(input);
    hide Peek, BitAt, ValidDynamic;
  }

  /** `inflate` refuses this valid stream exactly if nothing follows it; if something does, it
      takes one byte of that as well. */
  lemma ShortRefused(input: seq<Byte>, pre: seq<Byte>, r: nat, out: seq<Byte>, pos: nat, taken: nat)
    requires StartsShort(input) && Refines(input, pre, r, out, pos, taken)
    ensures ValidStream(input, 0, [], 0) == Done([], 96, 97)
    ensures r != 0 <==> input == Short
    ensures r == 0 ==> out == [] && pos == 96 && taken == 13
  {
    ShortMeaning(input);
    ValidInflated(input, pre, r, out, pos, taken);
    hide Refines, ValidStream;
    assert |input| == 12 ==> input[..12] == input;
  }

  // ----- the one that is not valid

  ghost predicate StartsLong(input: seq<Byte>) {
    |input| >= 14 && input[..14] == Long
  }

  lemma LongBytes(input: seq<Byte>)
    requires StartsLong(input)
    ensures |input| >= 14 && Middle(input) && input[0] == 0xf5 && input[11] == 0x47 && input[12] == 0x13 && input[13] == 0x01
  {
    forall i | 0 <= i < 14 ensures input[i] == Long[i] {
      assert input[..14][i] == input[i];
    }
  }

  lemma LongBits(input: seq<Byte>)
    requires StartsLong(input)
    ensures BitAt(input, 88) == 1 && Msb(input, 89, 3) == 6 && Msb(input, 92, 1) == 0 && Msb(input, 93, 1) == 0
    ensures Msb(input, 94, 2) == 2 && Peek(input, 96, 7) == 19 && Msb(input, 103, 1) == 0 && Msb(input, 104, 1) == 1
  {
    hide BitAt, Msb;
    MsbShort(input, 89);
    MsbShort(input, 92);
    MsbShort(input, 93);
    MsbShort(input, 94);
    MsbShort(input, 103);
    MsbShort(input, 104);
    LongBytes(input);
    ByteBits(input, 11, 0x47, 1, 1, 1, 0, 0, 0, 1, 0);
    ByteBits(input, 12, 0x13, 1, 1, 0, 0, 1, 0, 0, 0);
    ByteBits(input, 13, 0x01, 1, 0, 0, 0, 0, 0, 0, 0);
  }

  function LongLl(): (l: seq<nat>)
    ensures |l| == 287
  {
    ShortLl() + Repeat(0, 30)
  }

  lemma LongLlCode()
    ensures Complete(LongLl()) && CodeOf(LongLl(), 256) == 1 && LongLl()[256] == 1
  {
    hide ShortLl, Count, Kraft;
    ShortLlCode();
    PushZeros(ShortLl(), 30, 1);
    assert LongLl()[..256] == ShortLl()[..256] && LongLl()[256] == ShortLl()[256];
    assert FirstCode(LongLl(), 1) == FirstCode(ShortLl(), 1);
  }

  lemma LongLengths(input: seq<Byte>)
    requires StartsLong(input)
    ensures ValidLengths(input, ShortCl(), 288, 71, [], 0) == AllLengths(LongLl() + [1], 104, 106)
  {
    hide Peek, Msb, CodeOf, MaxLen, ValidLengths, Count, Kraft, StartsLong, Middle, BitAt, Complete, ShortCl;
    ShortClParts();
    LongBytes(input);
    LongBits(input);
    ShortZeros(input, 288);
    ShortClCodes();
    ShortClCounts(1);
    var z, y := Repeat(0, 254), Repeat(0, 30);
    PlainStep(input, 288, 89, z, 83, 0);
    PlainStep(input, 288, 92, z + [0], 92, 1);
    PlainStep(input, 288, 93, z + [0] + [1], 95, 1);
    StrictStep(input, ShortCl(), 288, 94, z + [0] + [1] + [1], 96, 18, y, 103);
    PlainStep(input, 288, 103, z + [0] + [1] + [1] + y, 97, 1);
    assert z + [0] + [1] + [1] + y + [1] == LongLl() + [1];
    StrictDone(input, ShortCl(), 288, 104, LongLl() + [1], 106);
  }

  lemma LongCodes(input: seq<Byte>)
    requires StartsLong(input)
    ensures Codes(input, LongLl(), [1], DynamicLimits, 104, [], 106) == Done([], 105, 106)
  {
    hide Peek, BitAt, Msb, CodeOf, Codes, LongLl, Complete;
    LongLlCode();
    LongBits(input);
    SymbolIs(LongLl(), 256, input, 104);
    CodesEnd(input, LongLl(), [1], DynamicLimits, 104, [], 106, 105);
  }

  lemma LongDynamic(input: seq<Byte>)
    requires StartsLong(input)
    ensures Dynamic(input, 3, [], 0) == Done([], 105, 106) && !Strict(input, 3, 0)
  {
    hide Peek, BitAt, Msb, CodeOf, MaxLen, Complete, Lone, Codes, CodeLengths, ValidLengths, ReadLengths, LongLl, ShortCl, RepeatAt;
    hide UsableCode, UsableDistances, Middle, Kraft, Count, ValidCodes;
    LongBytes(input);
    Header(input);
    Sent(input);
    LongLengths(input);
    ShortClCounts(1);
    LongLlCode();
    OneIsLone();
    LongCodes(input);
    CompleteClass(ShortCl());
    LengthsExactly(input, ShortCl(), 288, 71, 0);
    CompleteClass(LongLl());
    LoneClass([1]);
    LoneDistances([1], 287);
    var l := LongLl() + [1];
    assert l[..287] == LongLl() && l[287..] == [1];
    assert ReadLengths(input, ShortCl(), 288, 71, [], 0) == AllLengths(l, 104, 106);
  }

  lemma LoneDistances(dl: seq<nat>, nl: nat)
    requires Lone(dl)
    ensures UsableDistances(dl, nl)
  {
    LoneClass(dl);
  }

  /** `inflate` accepts this stream, which is not valid. */
  lemma LongAccepted(input: seq<Byte>, pre: seq<Byte>, r: nat, out: seq<Byte>, pos: nat, taken: nat)
    requires StartsLong(input) && Refines(input, pre, r, out, pos, taken)
    ensures ValidStream(input, 0, [], 0) == Fail
    ensures r == 0 && out == [] && pos == 105 && taken == 14
  {
    LongBytes(input);
    Header(input);
    LongDynamic(input);
    LongMeaning(input);
    StreamExactly(input, 0, [], 0);
    InflateCorrect(input, pre, r, out, pos, taken);
    hide *;
  }

  lemma LongMeaning(input: seq<Byte>)
    requires |input| >= 1 && BitAt(input, 0) == 1 && Peek(input, 1, 2) == 2
    requires Dynamic(input, 3, [], 0) == Done([], 105, 106) && !Strict(input, 3, 0)
    ensures Stream(input, 0, [], 0) == Done([], 105, 106) && !AllStrict(input, 0, [], 0)
  {
    hide Peek, BitAt, Dynamic, Strict;
  }

  // ----- the widths of the first tables

  /** Codes of 1, 2, 3, ... bits. */
  function Ramp(n: nat): (l: seq<nat>)
    ensures |l| == n
  {
    seq(n, i requires 0 <= i < n => i + 1)
  }

  lemma {:induction false} RampCount(n: nat, k: nat)
    ensures Count(Ramp(n), k) == (if 1 <= k <= n then 1 else 0) && MaxLen(Ramp(n)) == n
    decreases n
  {
    if n > 0 {
      RampCount(n - 1, k);
      assert Ramp(n) == Ramp(n - 1) + [n];
      Push(Ramp(n - 1), n, k);
    }
  }

  /** While there is one code of every length, the table becomes as wide as it may. */
  lemma {:induction false} WidenRamp(c: seq<nat>, k: nat, z: nat)
    requires 1 <= k < z < 15 && |c| == 17 && forall i :: 2 <= i < 15 ==> c[i] == 1
    ensures Widen(c, k, k, 1, z) == z
    decreases z - k
  {
    if k + 1 < z {
      WidenRamp(c, k + 1, z);
    }
  }

  /** A code of one bit asks for nine in the table of literals and for six in that of distances, if
      there are codes of all other lengths up to fifteen. */
  lemma FirstWidths()
    ensures Asked(Ramp(15) + [15], DynamicLimits.l, 0) == 9 && Asked(Ramp(15) + [15], DynamicLimits.d, 0) == 6
  {
    var b := Ramp(15) + [15];
    var c := Padded(b);
    forall k: nat | 1 <= k < 15 ensures Count(b, k) == 1 && c[k] == 1 {
      RampCount(15, k);
      Push(Ramp(15), 15, k);
    }
    RampCount(15, 1);
    Push(Ramp(15), 15, 1);
    hide Count, MaxLen, Ramp, Padded, Kraft;
    RampFirst();
    RampAsked(b, 9);
    RampAsked(b, 6);
  }

  lemma RampFirst()
    ensures (Ramp(15) + [15])[0] == 1
  {
  }

  lemma RampAsked(b: seq<nat>, m: nat)
    requires |b| == 16 && b[0] == 1 && MaxLen(b) == 15 && Count(b, 1) == 1 && 1 < m < 15
    requires forall k: nat :: 1 <= k < 15 ==> Padded(b)[k] == 1
    ensures Asked(b, m, 0) == m
  {
    hide MaxLen, Padded, Count;
    var c := Padded(b);
    NoneFirst(b);
    WidenRamp(c, 1, m);
    assert T.First(c, 1) == 0;
    assert Pow2(1) == 2 && Pow2(0) == 1;
    assert Limit(b, m) == m by {
      assert ShortestFrom(b, 1) == 1;
    }
    assert OpenFrom(c, 15, 0, 0, 1) == 1;
    assert WidthAt(c, 15, 16, m, 0, 0) == m;
  }

  lemma NoneFirst(b: seq<nat>)
    requires |b| > 0 && b[0] == 1
    ensures CodeOf(b, 0) == 0
  {
  }
}
