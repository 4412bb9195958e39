/** The meaning of a deflate stream, sections 3.2.3 to 3.2.7 of RFC 1951, as a function of the
  bits.  Nothing here knows about tables, bit buffers or windows: output is one growing
  history `h`, which a caller may start with bytes that precede the output.

  `peek` is not part of the format.  It is the furthest bit position that a decoder has looked
  at which finds symbols in tables of limited width: more than the symbol's own code may be
  asked for, except that no bit past an end-of-block code ever is. */
module Rfc1951 {
  import opened Wrappers
  import opened Bits
  import opened BitStream
  import opened Canonical
  import opened HuftWidth
  import opened Huffman
  import opened Runs
  import opened Window

  datatype Outcome = Fail | Done(hist: seq<Byte>, pos: nat, peek: nat)

  // ----- the tables of section 3.2.5

  /** Extra bits of length code `257 + i`. */
  function LengthExtra(i: nat): nat
    requires i < 29
  {
    if i < 8 || i == 28 then 0 else (i - 4) / 4
  }

  /** First length of length code `257 + i`: 3..10, then four codes per extra bit, then 258. */
  function LengthBase(i: nat): (r: nat)
    requires i < 29
    ensures r >= 3
  {
    if i < 8 then 3 + i
    else if i == 28 then 258
    else 3 + (4 + i % 4) * Pow2(LengthExtra(i))
  }

  function DistExtra(i: nat): nat
    requires i < 30
  {
    if i < 4 then 0 else (i - 2) / 2
  }

  /** First distance of distance code `i`: 1..4, then two codes per extra bit. */
  function DistBase(i: nat): (r: nat)
    requires i < 30
    ensures r >= 1
  {
    if i < 4 then 1 + i else 1 + (2 + i % 2) * Pow2(DistExtra(i))
  }

  // ----- blocks with Huffman codes (sections 3.2.3 and 3.2.5)

  /** A match: what follows length symbol `s` at `p`.  Gives the length, the distance, and the
      position after them. */
  ghost function Match(input: seq<Byte>, dl: seq<nat>, s: nat, p: nat): (r: Option<(nat, nat, nat)>)
    ensures r.Some? ==> p < r.value.2 <= BitLen(input) && 1 <= r.value.0 && 1 <= r.value.1
  {
    if s < 257 || s > 285 || p + LengthExtra(s - 257) > BitLen(input) then None
    else
      var n := LengthBase(s - 257) + Peek(input, p, LengthExtra(s - 257));
      match DistanceAt(input, dl, p + LengthExtra(s - 257))
      case None => None
      case Some((dist, q)) => Some((n, dist, q))
  }

  /** A distance code and its extra bits. */
  ghost function DistanceAt(input: seq<Byte>, dl: seq<nat>, p: nat): (r: Option<(nat, nat)>)
    ensures r.Some? ==> p < r.value.1 <= BitLen(input) && 1 <= r.value.0
  {
    match Symbol(dl, input, p)
    case None => None
    case Some((s, q)) =>
      if s > 29 || q + DistExtra(s) > BitLen(input) then None
      else Some((DistBase(s) + Peek(input, q, DistExtra(s)), q + DistExtra(s)))
  }

  /** The limits on the width of the literal/length tables and of the distance tables. */
  datatype Limits = Limits(l: nat, d: nat)

  /** How far a look-up of a distance code at `p` looks. */
  ghost function DistancePeek(input: seq<Byte>, dl: seq<nat>, m: nat, p: nat): nat {
    match Symbol(dl, input, p)
    case None => p
    case Some((s, q)) => p + Asked(dl, m, s)
  }

  /** The compressed data of a block, up to and including its end-of-block code. */
  ghost function Codes(input: seq<Byte>, ll: seq<nat>, dl: seq<nat>, m: Limits, p: nat, h: seq<Byte>, peek: nat): (r: Outcome)
    ensures r.Done? ==> p < r.pos <= BitLen(input) && peek <= r.peek
    decreases BitLen(input) - p
  {
    match Symbol(ll, input, p)
    case None => Fail
    case Some((s, q)) =>
      if s == 256 then Done(h, q, peek)
      else
        var peek' := Max(peek, p + Asked(ll, m.l, s));
        if s < 256 then Codes(input, ll, dl, m, q, h + [s], peek')
        else match Match(input, dl, s, q)
          case None => Fail
          case Some((n, dist, q')) =>
            if dist > |h| then Fail
            else Codes(input, ll, dl, m, q', CopyMatch(h, dist, n),
                       Max(peek', DistancePeek(input, dl, m.d, q + LengthExtra(s - 257))))
  }

  // ----- stored blocks (section 3.2.4)

  /** LEN and NLEN are two bytes each. */
  const LenBits: nat := 16

  /** LEN, if NLEN is its complement and that many bytes follow the two fields. */
  function StoredLength(input: seq<Byte>, q: nat): (r: Option<nat>)
    ensures r.Some? ==> q + 4 + r.value <= |input|
  {
    var n := Peek(input, 8 * q, LenBits);
    if n + Peek(input, 8 * q + LenBits, LenBits) == 0xffff && q + 4 + n <= |input| then Some(n) else None
  }

  ghost function Stored(input: seq<Byte>, p: nat, h: seq<Byte>, peek: nat): (r: Outcome)
    ensures r.Done? ==> p < r.pos <= BitLen(input) && peek <= r.peek
  {
    var q := ByteBoundary(p);
    match StoredLength(input, q)
    case None => Fail
    case Some(n) => Done(h + input[q + 4..q + 4 + n], 8 * (q + 4 + n), peek)
  }

  // ----- fixed Huffman codes (section 3.2.6)

  const FixedLimits := Limits(7, 5)

  function FixedLengths(): (l: seq<nat>)
    ensures |l| == 288
  {
    seq(288, i => if i < 144 then 8 else if i < 256 then 9 else if i < 280 then 7 else 8)
  }

  /** Symbols 30 and 31 of the distance code never occur; a stream that has their code
      words means nothing, with or without them. */
  function FixedDistances(): (l: seq<nat>)
    ensures |l| == 30
  {
    seq(30, _ => 5)
  }

  // ----- dynamic Huffman codes (section 3.2.7)

  const DynamicLimits := Limits(9, 6)

  /** The order in which the code length code lengths are sent. */
  const Border: seq<nat> := [16, 17, 18, 0, 8, 7, 9, 6, 10, 5, 11, 4, 12, 3, 13, 2, 14, 1, 15]

  /** The length sent for code length symbol `i`: three bits each, for the first `nb` of the
      order above. */
  function CodeLengthAt(input: seq<Byte>, p: nat, nb: nat, j: nat): nat {
    if j < nb then Peek(input, p + 3 * j, 3) else 0
  }

  /** Where symbol `i` comes in the sending order. */
  function BorderIndex(i: nat): (j: nat)
    requires i < 19
    ensures j < 19 && Border[j] == i
  {
    [3, 17, 15, 13, 11, 9, 7, 5, 4, 6, 8, 10, 12, 14, 16, 18, 0, 1, 2][i]
  }

  function CodeLengths(input: seq<Byte>, p: nat, nb: nat): (l: seq<nat>)
    ensures |l| == 19
  {
    seq(19, i requires 0 <= i < 19 => CodeLengthAt(input, p, nb, BorderIndex(i)))
  }

  /** A symbol of the code length code.  A code with a single one-bit code word is read as
      that symbol whatever the bit; for a complete code this is canonical decoding. */
  ghost function LengthSymbol(cl: seq<nat>, input: seq<Byte>, p: nat): (r: Option<(nat, nat)>)
    ensures r.Some? ==> r.value.0 < |cl| && p < r.value.1 <= BitLen(input)
  {
    if Lone(cl) then
      LoneHas(cl);
      var s: nat :| s < |cl| && cl[s] == 1;
      if p < BitLen(input) then Some((s, p + 1)) else None
    else Symbol(cl, input, p)
  }

  lemma {:induction false} LoneHas(cl: seq<nat>)
    requires Count(cl, 1) > 0
    ensures exists s: nat :: s < |cl| && cl[s] == 1
  {
    if cl[|cl| - 1] == 1 {
      var s := |cl| - 1;
      assert cl[s] == 1;
    } else {
      LoneHas(cl[..|cl| - 1]);
      var s: nat :| s < |cl[..|cl| - 1]| && cl[..|cl| - 1][s] == 1;
      assert cl[s] == 1;
    }
  }

  /** The run that code length symbol `s` stands for, after the lengths `acc`, and the position
      after its extra bits.  With no length before it, 16 repeats a zero. */
  ghost function Run(input: seq<Byte>, acc: seq<nat>, s: nat, p: nat): (r: Option<(seq<nat>, nat)>)
    ensures r.Some? ==> p <= r.value.1 <= Max(p, BitLen(input)) && 0 < |r.value.0|
    ensures r.Some? ==> forall i :: 0 <= i < |r.value.0| ==> r.value.0[i] < 16 || r.value.0[i] in acc
  {
    if s < 16 then Some(([s], p))
    else if s == 16 then
      if p + 2 > BitLen(input) then None
      else Some((Repeat(if acc == [] then 0 else acc[|acc| - 1], 3 + Peek(input, p, 2)), p + 2))
    else if s == 17 then
      if p + 3 > BitLen(input) then None else Some((Repeat(0, 3 + Peek(input, p, 3)), p + 3))
    else
      if p + 7 > BitLen(input) then None else Some((Repeat(0, 11 + Peek(input, p, 7)), p + 7))
  }

  datatype LengthList = NoLengths | AllLengths(l: seq<nat>, pos: nat, peek: nat)

  /** The `n` literal/length and distance code lengths, as one run-length coded list. */
  ghost function ReadLengths(input: seq<Byte>, cl: seq<nat>, n: nat, p: nat, acc: seq<nat>, peek: nat): (r: LengthList)
    requires |acc| <= n
    ensures r.AllLengths? ==> |r.l| == n && p <= r.pos && peek <= r.peek
    ensures r.AllLengths? && |acc| < n ==> r.pos <= BitLen(input)
    decreases n - |acc|
  {
    if |acc| == n then AllLengths(acc, p, peek)
    else match LengthSymbol(cl, input, p)
      case None => NoLengths
      case Some((s, q)) =>
        match Run(input, acc, s, q)
        case None => NoLengths
        case Some((run, q')) =>
          if |acc| + |run| > n then NoLengths
          else ReadLengths(input, cl, n, q', acc + run, Max(peek, p + MaxLen(cl)))
  }

  /** The codes a dynamic block may use: a complete code, or a single one-bit code word, for
      code lengths and for literals; for distances also an incomplete code, or, if there are
      no length symbols at all, none. */
  ghost predicate UsableCode(b: seq<nat>) {
    MaxLen(b) > 0 && KraftClass(b) == 0
  }

  ghost predicate UsableDistances(dl: seq<nat>, nl: nat) {
    if MaxLen(dl) == 0 then nl <= 257 else KraftClass(dl) != 2
  }

  ghost function Dynamic(input: seq<Byte>, p: nat, h: seq<Byte>, peek: nat): (r: Outcome)
    ensures r.Done? ==> p < r.pos <= BitLen(input) && peek <= r.peek
  {
    if p + 14 > BitLen(input) then Fail
    else
      var nl := 257 + Peek(input, p, 5);
      var nd := 1 + Peek(input, p + 5, 5);
      var nb := 4 + Peek(input, p + 10, 4);
      if p + 14 + 3 * nb > BitLen(input) then Fail
      else
        var cl := CodeLengths(input, p + 14, nb);
        if !UsableCode(cl) then Fail
        else match ReadLengths(input, cl, nl + nd, p + 14 + 3 * nb, [], peek)
          case NoLengths => Fail
          case AllLengths(l, q, peek') =>
            if !UsableCode(l[..nl]) || !UsableDistances(l[nl..], nl) then Fail
            else Codes(input, l[..nl], l[nl..], DynamicLimits, q, h, peek')
  }

  // ----- the stream (section 3.2.3)

  /** One block, after its three header bits. */
  ghost function Block(input: seq<Byte>, kind: nat, p: nat, h: seq<Byte>, peek: nat): (r: Outcome)
    ensures r.Done? ==> p < r.pos <= BitLen(input) && peek <= r.peek
  {
    if kind == 0 then Stored(input, p, h, peek)
    else if kind == 1 then Codes(input, FixedLengths(), FixedDistances(), FixedLimits, p, h, peek)
    else if kind == 2 then Dynamic(input, p, h, peek)
    else Fail
  }

  /** Blocks up to and including the one marked last. */
  ghost function Stream(input: seq<Byte>, p: nat, h: seq<Byte>, peek: nat): (r: Outcome)
    ensures r.Done? ==> p < r.pos <= BitLen(input) && peek <= r.peek
    decreases BitLen(input) - p
  {
    if p + 3 > BitLen(input) then Fail
    else match Block(input, Peek(input, p + 1, 2), p + 3, h, peek)
      case Fail => Fail
      case Done(h', q, peek') =>
        if BitAt(input, p) == 1 then Done(h', q, peek') else Stream(input, q, h', peek')
  }
}
