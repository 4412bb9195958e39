/** Writing shrunk members from a list of strings, and reading them back. */
module LzwWriter {
  import opened Wrappers
  import opened Bits
  import opened BitStream
  import opened BitWriter
  import opened Lzw
  import opened LzwStrings
  import E = EagerReader

  /** A code, or the announcement that codes have one more bit from now on. */
  datatype Op = Code(c: nat) | Wider

  function OpsBits(ops: seq<Op>, size: nat): seq<Bit>
    decreases |ops|
  {
    if ops == [] then []
    else match ops[0]
      case Code(c) => Field(c, size) + OpsBits(ops[1..], size)
      case Wider => Field(256, size) + (Field(1, size) + OpsBits(ops[1..], size + 1))
  }

  /** The string of a code: a character; one from the list, which starts at 257; or, for the next one
      of the list, the last string and its own first character. */
  function Spelling(list: seq<seq<Byte>>, prev: seq<Byte>, c: nat): Option<seq<Byte>> {
    if c < 256 then Some([c])
    else if 257 <= c < 257 + |list| then Some(list[c - 257])
    else if c == 257 + |list| && prev != [] then Some(prev + [prev[0]])
    else None
  }

  /** What the operations stand for.  Every code adds the last string and the first character of its
      own to the list, which ends at 8191. */
  function Saying(ops: seq<Op>, size: nat, list: seq<seq<Byte>>, prev: seq<Byte>): Option<seq<Byte>>
    decreases |ops|
  {
    if ops == [] then Some([])
    else match ops[0]
      case Wider => if size < 16 then Saying(ops[1..], size + 1, list, prev) else None
      case Code(c) =>
        match Spelling(list, prev, c)
        case None => None
        case Some(s) =>
          if s == [] || c >= Pow2(size) || 257 + |list| > 8191 then None
          else match Saying(ops[1..], size, list + [prev + [s[0]]], s)
            case None => None
            case Some(r) => Some(s + r)
  }

  // ----- the dictionary of strings is the list

  ghost predicate Lists(sd: Phrases, list: seq<seq<Byte>>) {
    forall c: nat ::
      && (c in sd <==> c < 256 || 257 <= c < 257 + |list|)
      && (c < 256 ==> sd[c].str == [c])
      && (257 <= c < 257 + |list| ==> sd[c].str == list[c - 257] != [])
  }

  lemma ListsFree(sd: Phrases, list: seq<seq<Byte>>)
    requires Lists(sd, list) && 257 + |list| < HSize
    ensures NextFree(sd, 257 + |list|) == 257 + |list|
  {
  }

  lemma ListsWord(sd: Phrases, list: seq<seq<Byte>>, old_: nat, prev: seq<Byte>, c: nat)
    requires Lists(sd, list) && old_ in sd && sd[old_].str == prev && Spelling(list, prev, c).Some?
    ensures Spoken(sd, 257 + |list|, old_, c) == Spelling(list, prev, c).value != []
  {
  }

  lemma ListsNext(sd: Phrases, list: seq<seq<Byte>>, old_: nat, prev: seq<Byte>, c: nat)
    requires Lists(sd, list) && old_ in sd && sd[old_].str == prev && Spelling(list, prev, c).Some?
    ensures var s := Spelling(list, prev, c).value;
            && s != []
            && var sd' := Learned(sd, 257 + |list|, old_, s[0]);
               Lists(sd', list + [prev + [s[0]]]) && c in sd' && sd'[c].str == s
  {
    ListsWord(sd, list, old_, prev, c);
  }

  lemma FieldThere(input: seq<Byte>, p: nat, v: nat, size: nat)
    requires At(input, p, Field(v, size)) && v < Pow2(size)
    ensures p + size <= BitLen(input) && Peek(input, p, size) == v
  {
    hide Field;
    AtLength(input, p, Field(v, size));
    PeekField(input, p, v, size);
  }

  lemma Room9(size: nat)
    requires 9 <= size
    ensures Pow2(size) >= 512
  {
    Pow2Mono(9, size);
    Pow2Of8();
    Pow2Unfold(9);
    hide Pow2;
  }

  /** The operations that stand at `p`, up to the padding of the last byte, mean what they say. */
  lemma {:induction false} OpsRead(input: seq<Byte>, p: nat, t: nat, size: nat, ops: seq<Op>,
                                   sd: Phrases, list: seq<seq<Byte>>, old_: nat, prev: seq<Byte>, h: seq<Byte>)
    requires t <= |input| && 9 <= size <= MaxSize && 257 + |list| <= HSize && (p <= 8 * t || t == |input|)
    requires Lists(sd, list) && old_ in sd && sd[old_].str == prev && Saying(ops, size, list, prev).Some?
    requires At(input, p, OpsBits(ops, size)) && p + |OpsBits(ops, size)| + 8 > BitLen(input)
    ensures DecodeS(input, p, t, size, sd, 256 + |list|, old_, h) == Decoded(h + Saying(ops, size, list, prev).value)
    decreases |ops|
  {
    hide At, Field, Lists, Spelling, Spoken, Learned, E.Ends, E.TakenAfter, Peek, NextFree, Pow2, Clear;
    E.EndsWhen(|input|, p, t, size);
    if ops == [] {
      AtLength(input, p, []);
      Room9(size);
      assert h + [] == h;
    } else {
      var t1 := E.TakenAfter(|input|, p, t, size);
      match ops[0]
      case Wider =>
        AtSplit(input, p, Field(256, size), Field(1, size) + OpsBits(ops[1..], size + 1));
        AtSplit(input, p + size, Field(1, size), OpsBits(ops[1..], size + 1));
        Room9(size);
        FieldThere(input, p, 256, size);
        FieldThere(input, p + size, 1, size);
        E.EndsWhen(|input|, p + size, t1, size);
        OpsRead(input, p + 2 * size, E.TakenAfter(|input|, p + size, t1, size), size + 1, ops[1..], sd, list, old_, prev, h);
      case Code(c) =>
        AtSplit(input, p, Field(c, size), OpsBits(ops[1..], size));
        FieldThere(input, p, c, size);
        NotEscape(list, prev, c);
        ListsFree(sd, list);
        ListsWord(sd, list, old_, prev, c);
        ListsNext(sd, list, old_, prev, c);
        var s := Spelling(list, prev, c).value;
        OpsRead(input, p + size, t1, size, ops[1..], Learned(sd, 257 + |list|, old_, s[0]), list + [prev + [s[0]]], c, s, h + s);
        var r := Saying(ops[1..], size, list + [prev + [s[0]]], s).value;
        assert h + s + r == h + (s + r);
    }
  }

  lemma NotEscape(list: seq<seq<Byte>>, prev: seq<Byte>, c: nat)
    requires Spelling(list, prev, c).Some?
    ensures c != 256
  {
  }

  lemma LettersList()
    ensures Lists(Letters(), [])
  {
  }

  /** A member that starts with a character, written from the list of strings and padded to a whole
      byte, decodes to what it was written for. */
  lemma MemberRead(input: seq<Byte>, first: Byte, ops: seq<Op>)
    requires Saying(ops, 9, [], [first]).Some?
    requires Holds(input, 0, Field(first, 9) + OpsBits(ops, 9)) && 9 + |OpsBits(ops, 9)| + 8 > 8 * |input|
    ensures Unshrunk(input) == Decoded([first] + Saying(ops, 9, [], [first]).value)
  {
    hide At, Holds, Field, Lists, Saying, OpsBits, E.Ends, E.TakenAfter, Peek, Pow2, Letters, DecodeS;
    HoldsAt(input, 0, Field(first, 9) + OpsBits(ops, 9));
    AtSplit(input, 0, Field(first, 9), OpsBits(ops, 9));
    Room9(9);
    FieldThere(input, 0, first, 9);
    E.EndsWhen(|input|, 0, 0, 9);
    LettersList();
    LettersIs(first);
    OpsRead(input, 9, E.TakenAfter(|input|, 0, 0, 9), 9, ops, Letters(), [], first, [first], [first]);
    StringsDecode(input);
  }

  lemma LettersIs(b: Byte)
    ensures b in Letters() && Letters()[b].str == [b]
  {
  }

  // ----- a code for every byte

  function Codes(d: seq<Byte>): (ops: seq<Op>)
    ensures |ops| == |d|
  {
    seq(|d|, i requires 0 <= i < |d| => Code(d[i]))
  }

  lemma {:induction false} CodesSay(d: seq<Byte>, list: seq<seq<Byte>>, prev: seq<Byte>)
    requires |d| + |list| <= 7935
    ensures Saying(Codes(d), 9, list, prev) == Some(d)
    decreases |d|
  {
    Room9(9);
    hide Pow2;
    if d != [] {
      assert Codes(d)[1..] == Codes(d[1..]);
      CodesSay(d[1..], list + [prev + [d[0]]], [d[0]]);
      assert [d[0]] + d[1..] == d;
    }
  }

  /** Nine bits for every byte, of up to 7936: that is a member that decodes to those bytes. */
  lemma PlainMember(d: seq<Byte>)
    requires 1 <= |d| <= 7936
    ensures Unshrunk(Pack(Field(d[0], 9) + OpsBits(Codes(d[1..]), 9))) == Decoded(d)
  {
    hide Holds, Field, Pack, OpsBits, Saying, Unshrunk;
    var bits := Field(d[0], 9) + OpsBits(Codes(d[1..]), 9);
    CodesSay(d[1..], [], [d[0]]);
    PackHolds(bits);
    MemberRead(Pack(bits), d[0], Codes(d[1..]));
    assert [d[0]] + d[1..] == d;
  }

  // ----- a member with a partial clear

  function Nine(codes: seq<nat>): (bits: seq<Bit>)
    ensures |bits| == 9 * |codes|
  {
    if codes == [] then [] else Field(codes[0], 9) + Nine(codes[1..])
  }

  lemma {:induction false} NineAt(input: seq<Byte>, p: nat, codes: seq<nat>, i: nat)
    requires At(input, p, Nine(codes)) && i < |codes| && codes[i] < 512
    ensures Peek(input, p + 9 * i, 9) == codes[i] && p + 9 * i + 9 <= BitLen(input)
    decreases |codes|
  {
    hide At, Field, Peek, Pow2;
    Room9(9);
    AtSplit(input, p, Field(codes[0], 9), Nine(codes[1..]));
    if i == 0 {
      FieldThere(input, p, codes[0], 9);
    } else {
      NineAt(input, p + 9, codes[1..], i - 1);
    }
  }

  /** One code, where nothing needs to be filled up. */
  lemma CodeStep(input: seq<Byte>, p: nat, t: nat, sd: Phrases, last: nat, old_: nat, h: seq<Byte>, c: nat, free: nat, str: seq<Byte>)
    returns (t': nat)
    requires t <= |input| && last < HSize && (p <= 8 * t || t == |input|) && p + 9 <= BitLen(input)
    requires Peek(input, p, 9) == c != BogusCode && NextFree(sd, last + 1) == free < HSize
    requires Spoken(sd, free, old_, c) == str != []
    ensures t' <= |input| && (p + 9 <= 8 * t' || t' == |input|)
    ensures DecodeS(input, p, t, 9, sd, last, old_, h) == DecodeS(input, p + 9, t', 9, Learned(sd, free, old_, str[0]), free, c, h + str)
  {
    hide E.Ends, E.TakenAfter, Peek, NextFree, Spoken, Learned, Clear;
    E.EndsWhen(|input|, p, t, 9);
    t' := E.TakenAfter(|input|, p, t, 9);
  }

  lemma ClearStep(input: seq<Byte>, p: nat, t: nat, sd: Phrases, last: nat, old_: nat, h: seq<Byte>) returns (t': nat)
    requires t <= |input| && last < HSize && (p <= 8 * t || t == |input|) && p + 18 <= BitLen(input)
    requires Peek(input, p, 9) == 256 && Peek(input, p + 9, 9) == 2
    ensures t' <= |input| && (p + 18 <= 8 * t' || t' == |input|)
    ensures DecodeS(input, p, t, 9, sd, last, old_, h) == DecodeS(input, p + 18, t', 9, Clear(sd), 256, old_, h)
  {
    hide E.Ends, E.TakenAfter, Peek, NextFree, Spoken, Learned, Clear;
    E.EndsWhen(|input|, p, t, 9);
    var t1 := E.TakenAfter(|input|, p, t, 9);
    E.EndsWhen(|input|, p + 9, t1, 9);
    t' := E.TakenAfter(|input|, p + 9, t1, 9);
  }

  lemma AtEnd(input: seq<Byte>, p: nat, t: nat, sd: Phrases, last: nat, old_: nat, h: seq<Byte>)
    requires t <= |input| && last < HSize && (p <= 8 * t || t == |input|) && p == BitLen(input)
    ensures DecodeS(input, p, t, 9, sd, last, old_, h) == Decoded(h)
  {
    hide E.Ends, Peek, Clear;
    E.EndsWhen(|input|, p, t, 9);
  }

  /** The dictionary of the member below, up to its partial clear. */
  function Before(): Phrases {
    Letters()[257 := Phrase(97, [97, 98])][258 := Phrase(98, [98, 97])][259 := Phrase(257, [97, 98, 99])]
  }

  lemma BeforeSteps()
    ensures NextFree(Letters(), 257) == 257 && Spoken(Letters(), 257, 97, 98) == [98]
    ensures var d1 := Letters()[257 := Phrase(97, [97, 98])];
            && Learned(Letters(), 257, 97, 98) == d1
            && NextFree(d1, 258) == 258 && Spoken(d1, 258, 98, 257) == [97, 98]
            && var d2 := d1[258 := Phrase(98, [98, 97])];
               && Learned(d1, 258, 98, 97) == d2
               && NextFree(d2, 259) == 259 && Spoken(d2, 259, 257, 99) == [99] && Learned(d2, 259, 257, 99) == Before()
  {
    assert [97, 98] + [99] == [97, 98, 99] && [97] + [98] == [97, 98] && [98] + [97] == [98, 97];
  }

  /** 257 has been extended, 258 and 259 have not. */
  lemma ClearIs()
    ensures Clear(Before()) == Letters()[257 := Phrase(97, [97, 98])]
  {
    var sd := Before();
    assert sd[259].up == 257;
    forall c ensures c in Clear(sd) <==> c < 256 || c == 257 {
      if Made(sd, c) {
        var e: nat :| e in sd && e > BogusCode && sd[e].up == c;
        assert e == 257 || e == 258 || e == 259;
      }
    }
  }

  lemma AfterSteps()
    ensures var d1 := Letters()[257 := Phrase(97, [97, 98])];
            && NextFree(d1, 257) == 258 && Spoken(d1, 258, 99, 257) == [97, 98]
            && var d2 := d1[258 := Phrase(99, [99, 97])];
               && Learned(d1, 258, 99, 97) == d2
               && NextFree(d2, 259) == 259 && Spoken(d2, 259, 257, 258) == [99, 97]
  {
    assert [99] + [97] == [99, 97];
    var d1 := Letters()[257 := Phrase(97, [97, 98])];
    assert NextFree(d1, 258) == 258;
  }

  /** The escape code and 2 clear what has not been extended: code 258 is "ba" before that, and "ca"
      after it. */
  lemma ClearedMember()
    ensures Unshrunk(Pack(Nine([97, 98, 257, 99, 256, 2, 257, 258]))) == Decoded([97, 98, 97, 98, 99, 97, 98, 99, 97])
  {
    hide DecodeS, E.Ends, E.TakenAfter, Peek, NextFree, Spoken, Learned, Clear, Letters, Before, Pack, At, Holds, Nine, Unshrunk;
    var codes := [97, 98, 257, 99, 256, 2, 257, 258];
    var input := Pack(Nine(codes));
    PackHolds(Nine(codes));
    HoldsAt(input, 0, Nine(codes));
    assert |input| == 9;
    ClearedFields(input, codes);
    E.EndsWhen(9, 0, 0, 9);
    BeforeSteps();
    ClearIs();
    AfterSteps();
    var t0 := E.TakenAfter(9, 0, 0, 9);
    var d1 := Letters()[257 := Phrase(97, [97, 98])];
    var d2 := d1[258 := Phrase(98, [98, 97])];
    var t1 := CodeStep(input, 9, t0, Letters(), 256, 97, [97], 98, 257, [98]);
    var t2 := CodeStep(input, 18, t1, d1, 257, 98, [97] + [98], 257, 258, [97, 98]);
    var h := [97] + [98] + [97, 98];
    var t3 := CodeStep(input, 27, t2, d2, 258, 257, h, 99, 259, [99]);
    var t4 := ClearStep(input, 36, t3, Before(), 259, 99, h + [99]);
    var t5 := CodeStep(input, 54, t4, d1, 256, 99, h + [99], 257, 258, [97, 98]);
    var d3 := d1[258 := Phrase(99, [99, 97])];
    var g := h + [99] + [97, 98];
    var t6 := CodeStep(input, 63, t5, d3, 258, 257, g, 258, 259, [99, 97]);
    AtEnd(input, 72, t6, Learned(d3, 259, 257, 99), 259, 258, g + [99, 97]);
    assert g + [99, 97] == [97, 98, 97, 98, 99, 97, 98, 99, 97];
    Begin(input, t0);
    StringsDecode(input);
  }

  lemma Begin(input: seq<Byte>, t: nat)
    requires |input| == 9 && Peek(input, 0, 9) == 97 && t == E.TakenAfter(9, 0, 0, 9) && (9 <= 8 * t || t == 9)
    ensures UnshrunkS(input) == DecodeS(input, 9, t, 9, Letters(), 256, 97, [97])
  {
    hide DecodeS, Peek, E.Ends, E.TakenAfter, Letters;
    E.EndsWhen(9, 0, 0, 9);
  }

  lemma ClearedFields(input: seq<Byte>, codes: seq<nat>)
    requires codes == [97, 98, 257, 99, 256, 2, 257, 258] && At(input, 0, Nine(codes))
    ensures Peek(input, 0, 9) == 97 && Peek(input, 9, 9) == 98 && Peek(input, 18, 9) == 257 && Peek(input, 27, 9) == 99
    ensures Peek(input, 36, 9) == 256 && Peek(input, 45, 9) == 2 && Peek(input, 54, 9) == 257 && Peek(input, 63, 9) == 258
  {
    hide At, Nine, Peek;
    NineAt(input, 0, codes, 0);
    NineAt(input, 0, codes, 1);
    NineAt(input, 0, codes, 2);
    NineAt(input, 0, codes, 3);
    NineAt(input, 0, codes, 4);
    NineAt(input, 0, codes, 5);
    NineAt(input, 0, codes, 6);
    NineAt(input, 0, codes, 7);
  }
}
