/** Streams that are valid to the letter: the code length code, and the literal code unless it is
  a single code word, are complete; nothing is repeated that is not there.  The decoder is more
  lenient, and `Rfc1951` with it; on valid streams the two agree, and which streams are accepted
  without being valid is said exactly. */
module Rfc1951Strict {
  import opened Wrappers
  import opened Bits
  import opened BitStream
  import opened Canonical
  import opened Huffman
  import opened Rfc1951
  import opened Rfc1951Facts

  /** Every sequence of bits begins with a code word. */
  predicate Complete(b: seq<nat>) {
    Kraft(b) == Pow2(16)
  }

  /** A single one-bit code word leaves the other unused; distances may also be absent, and then
      there is no room for length codes. */
  ghost predicate ValidCodes(ll: seq<nat>, dl: seq<nat>) {
    && (Complete(ll) || Lone(ll))
    && (Complete(dl) || Lone(dl) || (MaxLen(dl) == 0 && |ll| <= 257))
  }

  ghost function ValidLengths(input: seq<Byte>, cl: seq<nat>, n: nat, p: nat, acc: seq<nat>, peek: nat): (r: LengthList)
    requires |acc| <= n
    ensures r.AllLengths? ==> |r.l| == n && p <= r.pos && peek <= r.peek
    ensures r.AllLengths? && |acc| < n ==> r.pos <= BitLen(input)
    decreases n - |acc|
  {
    if |acc| == n then AllLengths(acc, p, peek)
    else match Symbol(cl, input, p)
      case None => NoLengths
      case Some((s, q)) =>
        if s == 16 && acc == [] then NoLengths
        else match Run(input, acc, s, q)
          case None => NoLengths
          case Some((run, q')) =>
            if |acc| + |run| > n then NoLengths
            else ValidLengths(input, cl, n, q', acc + run, Max(peek, p + MaxLen(cl)))
  }

  function LiteralCount(input: seq<Byte>, p: nat): nat {
    257 + Peek(input, p, 5)
  }

  /** The code lengths at the head of a dynamic block. */
  ghost function ValidTables(input: seq<Byte>, p: nat, peek: nat): (r: LengthList)
    ensures r.AllLengths? ==> p < r.pos && peek <= r.peek && LiteralCount(input, p) <= |r.l|
  {
    var nl := LiteralCount(input, p);
    var nd := 1 + Peek(input, p + 5, 5);
    var nb := 4 + Peek(input, p + 10, 4);
    var cl := CodeLengths(input, p + 14, nb);
    if nl > 286 || p + 14 + 3 * nb > BitLen(input) || !Complete(cl) then NoLengths
    else ValidLengths(input, cl, nl + nd, p + 14 + 3 * nb, [], peek)
  }

  ghost function ValidDynamic(input: seq<Byte>, p: nat, h: seq<Byte>, peek: nat): (r: Outcome)
    ensures r.Done? ==> p < r.pos <= BitLen(input) && peek <= r.peek
  {
    match ValidTables(input, p, peek)
    case NoLengths => Fail
    case AllLengths(l, q, peek') =>
      var nl := LiteralCount(input, p);
      if ValidCodes(l[..nl], l[nl..]) then Codes(input, l[..nl], l[nl..], DynamicLimits, q, h, peek') else Fail
  }

  ghost function ValidBlock(input: seq<Byte>, kind: nat, p: nat, h: seq<Byte>, peek: nat): (r: Outcome)
    ensures r.Done? ==> p < r.pos <= BitLen(input) && peek <= r.peek
  {
    if kind == 2 then ValidDynamic(input, p, h, peek) else Block(input, kind, p, h, peek)
  }

  /** A valid stream. */
  ghost function ValidStream(input: seq<Byte>, p: nat, h: seq<Byte>, peek: nat): (r: Outcome)
    ensures r.Done? ==> p < r.pos <= BitLen(input) && peek <= r.peek
    decreases BitLen(input) - p
  {
    if p + 3 > BitLen(input) then Fail
    else match ValidBlock(input, Peek(input, p + 1, 2), p + 3, h, peek)
      case Fail => Fail
      case Done(h', q, peek') =>
        if BitAt(input, p) == 1 then Done(h', q, peek') else ValidStream(input, q, h', peek')
  }

  // ----- valid streams mean the same to the decoder

  lemma {:induction false} ShortKraft(b: seq<nat>)
    requires MaxLen(b) <= 1
    ensures Kraft(b) == Count(b, 1) * Pow2(15)
  {
    hide Pow2;
    if b != [] {
      ShortKraft(b[..|b| - 1]);
      Distribute(Count(b[..|b| - 1], 1), 1, Pow2(15));
      assert b[|b| - 1] <= 1;
    }
  }

  lemma LoneClass(b: seq<nat>)
    requires Lone(b)
    ensures UsableCode(b) && !Complete(b)
  {
    ShortKraft(b);
    assert Pow2(16) == 2 * Pow2(15);
  }

  lemma CompleteClass(b: seq<nat>)
    requires Complete(b)
    ensures UsableCode(b) && !Lone(b)
  {
    if MaxLen(b) == 0 {
      ShortKraft(b);
      NoneOne(b);
    }
    if Lone(b) {
      LoneClass(b);
    }
  }

  lemma {:induction false} NoneOne(b: seq<nat>)
    requires MaxLen(b) == 0
    ensures Count(b, 1) == 0
  {
    if b != [] {
      NoneOne(b[..|b| - 1]);
    }
  }

  lemma CodesUsable(ll: seq<nat>, dl: seq<nat>)
    requires ValidCodes(ll, dl)
    ensures UsableCode(ll) && UsableDistances(dl, |ll|)
  {
    if Complete(ll) {
      CompleteClass(ll);
    } else {
      LoneClass(ll);
    }
    if Complete(dl) {
      CompleteClass(dl);
    } else if Lone(dl) {
      LoneClass(dl);
    }
  }

  /** After the first length there is always one to repeat. */
  lemma {:induction false} LengthsAgree(input: seq<Byte>, cl: seq<nat>, n: nat, p: nat, acc: seq<nat>, peek: nat)
    requires |acc| <= n && !Lone(cl) && acc != []
    ensures ValidLengths(input, cl, n, p, acc, peek) == ReadLengths(input, cl, n, p, acc, peek)
    decreases n - |acc|
  {
    hide Run, Symbol, MaxLen;
    if |acc| < n {
      LengthSymbolExact(cl, input, p);
      if Symbol(cl, input, p).Some? {
        var (s, q) := Symbol(cl, input, p).value;
        if Run(input, acc, s, q).Some? {
          var (run, q') := Run(input, acc, s, q).value;
          if |acc| + |run| <= n {
            LengthsAgree(input, cl, n, q', acc + run, Max(peek, p + MaxLen(cl)));
          }
        }
      }
    }
  }

  /** The symbol at `p` repeats the length before it. */
  ghost predicate RepeatAt(input: seq<Byte>, cl: seq<nat>, p: nat) {
    Symbol(cl, input, p).Some? && Symbol(cl, input, p).value.0 == 16
  }

  /** The lists of code lengths are read alike, unless the first symbol is a repetition. */
  lemma LengthsExactly(input: seq<Byte>, cl: seq<nat>, n: nat, p: nat, peek: nat)
    requires n > 0 && !Lone(cl)
    ensures ValidLengths(input, cl, n, p, [], peek)
            == if RepeatAt(input, cl, p) then NoLengths else ReadLengths(input, cl, n, p, [], peek)
  {
    hide Run, Symbol, MaxLen;
    LengthSymbolExact(cl, input, p);
    if Symbol(cl, input, p).Some? && !RepeatAt(input, cl, p) {
      var (s, q) := Symbol(cl, input, p).value;
      if Run(input, [], s, q).Some? {
        var (run, q') := Run(input, [], s, q).value;
        if |run| <= n {
          LengthsAgree(input, cl, n, q', [] + run, Max(peek, p + MaxLen(cl)));
        }
      }
    }
  }

  /** What the format asks of a dynamic block beyond what the decoder does: no more than 286
      literal/length codes, a complete code for the code lengths, nothing repeated at their
      start, and codes that leave no code word unused. */
  ghost predicate Strict(input: seq<Byte>, p: nat, peek: nat) {
    var nl := LiteralCount(input, p);
    var nd := 1 + Peek(input, p + 5, 5);
    var nb := 4 + Peek(input, p + 10, 4);
    var cl := CodeLengths(input, p + 14, nb);
    var o := ReadLengths(input, cl, nl + nd, p + 14 + 3 * nb, [], peek);
    nl <= 286 && Complete(cl) && !RepeatAt(input, cl, p + 14 + 3 * nb)
    && (o.AllLengths? ==> ValidCodes(o.l[..nl], o.l[nl..]))
  }

  /** A dynamic block that the decoder understands is valid exactly if it is strict, and then it
      is understood as what it means. */
  lemma DynamicExactly(input: seq<Byte>, p: nat, h: seq<Byte>, peek: nat)
    requires Dynamic(input, p, h, peek).Done?
    ensures ValidDynamic(input, p, h, peek) == if Strict(input, p, peek) then Dynamic(input, p, h, peek) else Fail
  {
    hide Codes, ReadLengths, ValidLengths, CodeLengths, Peek, ValidCodes, Complete, UsableCode, UsableDistances, RepeatAt, Lone;
    var nl := LiteralCount(input, p);
    var nd := 1 + Peek(input, p + 5, 5);
    var nb := 4 + Peek(input, p + 10, 4);
    var cl := CodeLengths(input, p + 14, nb);
    if Complete(cl) {
      CompleteClass(cl);
      LengthsExactly(input, cl, nl + nd, p + 14 + 3 * nb, peek);
    }
  }

  /** A dynamic block that is valid is one that the decoder understands. */
  lemma DynamicAgrees(input: seq<Byte>, p: nat, h: seq<Byte>, peek: nat)
    requires ValidDynamic(input, p, h, peek).Done?
    ensures Dynamic(input, p, h, peek) == ValidDynamic(input, p, h, peek)
  {
    hide Codes, ReadLengths, ValidLengths, CodeLengths, Peek, ValidCodes, Complete, UsableCode, UsableDistances, RepeatAt, Lone;
    var nl := LiteralCount(input, p);
    var nd := 1 + Peek(input, p + 5, 5);
    var nb := 4 + Peek(input, p + 10, 4);
    var cl := CodeLengths(input, p + 14, nb);
    CompleteClass(cl);
    LengthsExactly(input, cl, nl + nd, p + 14 + 3 * nb, peek);
    var l := ValidLengths(input, cl, nl + nd, p + 14 + 3 * nb, [], peek).l;
    CodesUsable(l[..nl], l[nl..]);
  }

  /** Every dynamic block of the stream is strict. */
  ghost predicate AllStrict(input: seq<Byte>, p: nat, h: seq<Byte>, peek: nat)
    decreases BitLen(input) - p
  {
    p + 3 > BitLen(input)
    || var kind := Peek(input, p + 1, 2);
       var o := Block(input, kind, p + 3, h, peek);
       && (kind == 2 ==> Strict(input, p + 3, peek))
       && (o.Done? && BitAt(input, p) != 1 ==> AllStrict(input, o.pos, o.hist, o.peek))
  }

  /** On a valid stream the lenient reading is the strict one. */
  lemma {:induction false} StreamAgrees(input: seq<Byte>, p: nat, h: seq<Byte>, peek: nat)
    requires ValidStream(input, p, h, peek).Done?
    ensures Stream(input, p, h, peek) == ValidStream(input, p, h, peek)
    decreases BitLen(input) - p
  {
    hide Dynamic, ValidDynamic, Stored, Codes, Peek;
    if Peek(input, p + 1, 2) == 2 {
      DynamicAgrees(input, p + 3, h, peek);
    }
    var o := ValidBlock(input, Peek(input, p + 1, 2), p + 3, h, peek);
    if BitAt(input, p) != 1 {
      StreamAgrees(input, o.pos, o.hist, o.peek);
    }
  }

  /** A stream that the decoder understands is valid exactly if all its dynamic blocks are
      strict. */
  lemma {:induction false} StreamExactly(input: seq<Byte>, p: nat, h: seq<Byte>, peek: nat)
    requires Stream(input, p, h, peek).Done?
    ensures ValidStream(input, p, h, peek) == if AllStrict(input, p, h, peek) then Stream(input, p, h, peek) else Fail
    decreases BitLen(input) - p
  {
    hide Dynamic, ValidDynamic, Stored, Codes, Peek, Strict;
    var kind := Peek(input, p + 1, 2);
    if kind == 2 {
      DynamicExactly(input, p + 3, h, peek);
    }
    var o := Block(input, kind, p + 3, h, peek);
    if BitAt(input, p) != 1 {
      StreamExactly(input, o.pos, o.hist, o.peek);
    }
  }
}
