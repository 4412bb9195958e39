/** LZW as it is usually told: a dictionary of strings, to which every code adds the last string
  and the first character of its own.  Where this has a meaning, `Lzw` has the same. */
module LzwStrings {
  import opened Wrappers
  import opened Bits
  import opened BitStream
  import opened Lzw
  import E = EagerReader

  /** A string, and the code it was made from, which only partial clearing asks for.  The empty
      string is that of a code which was made from one that had just been cleared; it cannot be
      used. */
  datatype Phrase = Phrase(up: nat, str: seq<Byte>)

  type Phrases = map<nat, Phrase>

  function Letters(): Phrases {
    map c: nat | c < BogusCode :: Phrase(BogusCode, [c])
  }

  /** The codes over 256 from which nothing was made are cleared. */
  ghost predicate Made(sd: Phrases, c: nat) {
    exists e: nat :: e in sd && e > BogusCode && sd[e].up == c
  }

  ghost function Clear(sd: Phrases): Phrases {
    map c | c in sd && (c < BogusCode || Made(sd, c)) :: sd[c]
  }

  function Known(sd: Phrases, c: nat): seq<Byte> {
    if c in sd then sd[c].str else []
  }

  /** What a code stands for: one that is known for its string, the one that is just going to be
      assigned for the last string and its first character, any other for nothing. */
  function Spoken(sd: Phrases, free: nat, old_: nat, code: nat): seq<Byte> {
    if code in sd then sd[code].str
    else
      var s := Known(sd, old_);
      if code == free && s != [] then s + [s[0]] else []
  }

  function Learned(sd: Phrases, free: nat, old_: nat, ch: Byte): Phrases {
    var s := Known(sd, old_);
    sd[free := Phrase(old_, if s == [] then [] else s + [ch])]
  }

  ghost function DecodeS(input: seq<Byte>, p: nat, t: nat, size: nat, sd: Phrases, last: nat, old_: nat, h: seq<Byte>): Outcome
    requires t <= |input| && 0 < size <= MaxSize && last < HSize && (p <= 8 * t || t == |input|)
    decreases if p < BitLen(input) then BitLen(input) - p else 0
  {
    E.EndsWhen(|input|, p, t, size);
    var t1, q, code := E.TakenAfter(|input|, p, t, size), p + size, Peek(input, p, size);
    if E.Ends(|input|, p, t, size) then Decoded(h)
    else if code == BogusCode then
      E.EndsWhen(|input|, q, t1, size);
      var t2, q2, sub := E.TakenAfter(|input|, q, t1, size), q + size, Peek(input, q, size);
      if E.Ends(|input|, q, t1, size) then Decoded(h)
      else if sub == 1 then
        if size == MaxSize then Malformed else DecodeS(input, q2, t2, size + 1, sd, last, old_, h)
      else if sub == 2 then DecodeS(input, q2, t2, size, Clear(sd), BogusCode, old_, h)
      else DecodeS(input, q2, t2, size, sd, last, old_, h)
    else
      var free := NextFree(sd, last + 1);
      var str := Spoken(sd, free, old_, code);
      if free == HSize || str == [] then Malformed
      else DecodeS(input, q, t1, size, Learned(sd, free, old_, str[0]), free, code, h + str)
  }

  /** The whole member: the first code is a character. */
  ghost function UnshrunkS(input: seq<Byte>): Outcome {
    E.EndsWhen(|input|, 0, 0, 9);
    var first := Peek(input, 0, 9);
    if E.Ends(|input|, 0, 0, 9) then Decoded([])
    else if first >= BogusCode then Malformed
    else DecodeS(input, 9, E.TakenAfter(|input|, 0, 0, 9), 9, Letters(), BogusCode, first, [first])
  }

  // ----- the dictionary of links has the same strings

  ghost predicate SameAt(d: Dict, sd: Phrases, c: nat) {
    && (c in d <==> c in sd)
    && (c in d ==> d[c].up == sd[c].up && (sd[c].str != [] ==> String(d, c) == Some(sd[c].str)))
  }

  /** The same codes, made from the same ones, and no string that links do not spell. */
  ghost predicate Same(d: Dict, sd: Phrases) {
    Sized(d) && forall c: nat :: SameAt(d, sd, c)
  }

  lemma SameLetters()
    ensures Same(Start(), Letters())
  {
    forall c: nat ensures SameAt(Start(), Letters(), c) {
    }
  }

  lemma {:induction false} SameFree(d: Dict, sd: Phrases, c: nat)
    requires Same(d, sd) && c <= HSize
    ensures NextFree(d, c) == NextFree(sd, c)
    decreases HSize - c
  {
    assert SameAt(d, sd, c);
    if c < HSize && c in d {
      SameFree(d, sd, c + 1);
    }
  }

  lemma SameMade(d: Dict, sd: Phrases, c: nat)
    requires Same(d, sd)
    ensures HasChild(d, c) <==> Made(sd, c)
  {
    if HasChild(d, c) {
      var e: nat :| e in d && e > BogusCode && d[e].up == c;
      assert SameAt(d, sd, e);
    }
    if Made(sd, c) {
      var e: nat :| e in sd && e > BogusCode && sd[e].up == c;
      assert SameAt(d, sd, e);
    }
  }

  lemma SameClear(d: Dict, sd: Phrases)
    requires Same(d, sd)
    ensures Same(PartialClear(d), Clear(sd))
  {
    forall c: nat ensures SameAt(PartialClear(d), Clear(sd), c) {
      SameMade(d, sd, c);
      assert SameAt(d, sd, c);
      if c in PartialClear(d) && sd[c].str != [] {
        ClearKeeps(d, c, HSize);
      }
    }
  }

  lemma SameOutput(d: Dict, sd: Phrases, free: nat, old_: nat, code: nat)
    requires Same(d, sd) && free !in sd && Spoken(sd, free, old_, code) != []
    ensures Output(d, old_, code) == Some(Spoken(sd, free, old_, code))
  {
    assert SameAt(d, sd, code);
    assert SameAt(d, sd, old_);
  }

  lemma SameLearned(d: Dict, sd: Phrases, free: nat, old_: nat, ch: Byte)
    requires Same(d, sd) && free !in sd && BogusCode < free < HSize
    ensures Same(d[free := Entry(old_, ch)], Learned(sd, free, old_, ch))
  {
    var d', sd' := d[free := Entry(old_, ch)], Learned(sd, free, old_, ch);
    assert SameAt(d, sd, free);
    assert SameAt(d, sd, old_);
    NewLeaf(d, free, old_, ch);
    forall c: nat ensures SameAt(d', sd', c) {
      assert SameAt(d, sd, c);
    }
  }

  /** Wherever decoding with a dictionary of strings has a meaning, decoding with links has the
      same. */
  lemma {:induction false} LinksSpell(input: seq<Byte>, p: nat, t: nat, size: nat, d: Dict, sd: Phrases, last: nat, old_: nat, h: seq<Byte>)
    requires t <= |input| && 0 < size <= MaxSize && BogusCode <= last < HSize && (p <= 8 * t || t == |input|)
    requires Same(d, sd) && DecodeS(input, p, t, size, sd, last, old_, h).Decoded?
    ensures Decode(input, p, t, size, d, last, old_, h) == DecodeS(input, p, t, size, sd, last, old_, h)
    decreases if p < BitLen(input) then BitLen(input) - p else 0
  {
    hide Same, Clear, PartialClear, Spoken, Learned, Output, E.Ends, E.TakenAfter, Peek, NextFree;
    E.EndsWhen(|input|, p, t, size);
    var t1, q, code := E.TakenAfter(|input|, p, t, size), p + size, Peek(input, p, size);
    if !E.Ends(|input|, p, t, size) {
      if code == BogusCode {
        E.EndsWhen(|input|, q, t1, size);
        var t2, q2, sub := E.TakenAfter(|input|, q, t1, size), q + size, Peek(input, q, size);
        if !E.Ends(|input|, q, t1, size) {
          if sub == 1 {
            LinksSpell(input, q2, t2, size + 1, d, sd, last, old_, h);
          } else if sub == 2 {
            SameClear(d, sd);
            LinksSpell(input, q2, t2, size, PartialClear(d), Clear(sd), BogusCode, old_, h);
          } else {
            LinksSpell(input, q2, t2, size, d, sd, last, old_, h);
          }
        }
      } else {
        SameFree(d, sd, last + 1);
        var free := NextFree(sd, last + 1);
        var str := Spoken(sd, free, old_, code);
        SpokenSmall(d, sd, free, old_, code);
        SameOutput(d, sd, free, old_, code);
        SameLearned(d, sd, free, old_, str[0]);
        LinksSpell(input, q, t1, size, d[free := Entry(old_, str[0])], Learned(sd, free, old_, str[0]), free, code, h + str);
      }
    }
  }

  lemma SpokenSmall(d: Dict, sd: Phrases, free: nat, old_: nat, code: nat)
    requires Same(d, sd) && Spoken(sd, free, old_, code) != [] && free < HSize
    ensures code < HSize
  {
    assert SameAt(d, sd, code);
  }

  /** The same for the whole member. */
  lemma StringsDecode(input: seq<Byte>)
    requires UnshrunkS(input).Decoded?
    ensures Unshrunk(input) == UnshrunkS(input)
  {
    hide Peek, E.Ends, E.TakenAfter, Letters, Start, Same;
    E.EndsWhen(|input|, 0, 0, 9);
    if !E.Ends(|input|, 0, 0, 9) {
      var first := Peek(input, 0, 9);
      SameLetters();
      LinksSpell(input, 9, E.TakenAfter(|input|, 0, 0, 9), 9, Start(), Letters(), BogusCode, first, [first]);
    }
  }

  // ----- which members have a meaning

  /** From `p` on there is no partial clear. */
  ghost predicate NeverCleared(input: seq<Byte>, p: nat, t: nat, size: nat)
    requires t <= |input| && 0 < size <= MaxSize && (p <= 8 * t || t == |input|)
    decreases if p < BitLen(input) then BitLen(input) - p else 0
  {
    E.EndsWhen(|input|, p, t, size);
    var t1, q := E.TakenAfter(|input|, p, t, size), p + size;
    if E.Ends(|input|, p, t, size) then true
    else if Peek(input, p, size) == BogusCode then
      E.EndsWhen(|input|, q, t1, size);
      var t2, q2, sub := E.TakenAfter(|input|, q, t1, size), q + size, Peek(input, q, size);
      if E.Ends(|input|, q, t1, size) || (sub == 1 && size == MaxSize) then true
      else sub != 2 && NeverCleared(input, q2, t2, if sub == 1 then size + 1 else size)
    else NeverCleared(input, q, t1, size)
  }

  /** No code is further than one ahead of `last`, the last one assigned; there are no more of them
      than there is room for, and they do not get wider than 16 bits. */
  ghost predicate InOrder(input: seq<Byte>, p: nat, t: nat, size: nat, last: nat)
    requires t <= |input| && 0 < size <= MaxSize && last < HSize && (p <= 8 * t || t == |input|)
    decreases if p < BitLen(input) then BitLen(input) - p else 0
  {
    E.EndsWhen(|input|, p, t, size);
    var t1, q := E.TakenAfter(|input|, p, t, size), p + size;
    if E.Ends(|input|, p, t, size) then true
    else if Peek(input, p, size) == BogusCode then
      E.EndsWhen(|input|, q, t1, size);
      var t2, q2, sub := E.TakenAfter(|input|, q, t1, size), q + size, Peek(input, q, size);
      if E.Ends(|input|, q, t1, size) then true
      else if sub == 1 then size < MaxSize && InOrder(input, q2, t2, size + 1, last)
      else InOrder(input, q2, t2, size, last)
    else Peek(input, p, size) <= last + 1 < HSize && InOrder(input, q, t1, size, last + 1)
  }

  /** All codes up to `last` are known. */
  ghost predicate AllKnown(sd: Phrases, last: nat) {
    forall c: nat :: (c in sd <==> c <= last && c != BogusCode) && (c in sd ==> sd[c].str != [])
  }

  lemma KnownFree(sd: Phrases, last: nat)
    requires AllKnown(sd, last) && BogusCode <= last < HSize
    ensures NextFree(sd, last + 1) == last + 1
  {
  }

  lemma KnownLearned(sd: Phrases, last: nat, old_: nat, code: nat)
    requires AllKnown(sd, last) && BogusCode <= last && code != BogusCode && old_ in sd
    ensures var str := Spoken(sd, last + 1, old_, code);
            && (str != [] <==> code <= last + 1)
            && (str != [] ==> AllKnown(Learned(sd, last + 1, old_, str[0]), last + 1)
                              && code in Learned(sd, last + 1, old_, str[0]))
  {
  }

  /** Without partial clears it is exactly these members that have a meaning. */
  lemma {:induction false} InOrderDecodes(input: seq<Byte>, p: nat, t: nat, size: nat, sd: Phrases, last: nat, old_: nat, h: seq<Byte>)
    requires t <= |input| && 0 < size <= MaxSize && BogusCode <= last < HSize && (p <= 8 * t || t == |input|)
    requires NeverCleared(input, p, t, size) && AllKnown(sd, last) && old_ in sd
    ensures DecodeS(input, p, t, size, sd, last, old_, h).Decoded? <==> InOrder(input, p, t, size, last)
    decreases if p < BitLen(input) then BitLen(input) - p else 0
  {
    hide AllKnown, Clear, Spoken, Learned, E.Ends, E.TakenAfter, Peek, NextFree;
    E.EndsWhen(|input|, p, t, size);
    var t1, q, code := E.TakenAfter(|input|, p, t, size), p + size, Peek(input, p, size);
    if !E.Ends(|input|, p, t, size) {
      if code == BogusCode {
        E.EndsWhen(|input|, q, t1, size);
        var t2, q2, sub := E.TakenAfter(|input|, q, t1, size), q + size, Peek(input, q, size);
        if !E.Ends(|input|, q, t1, size) && (sub != 1 || size < MaxSize) {
          InOrderDecodes(input, q2, t2, if sub == 1 then size + 1 else size, sd, last, old_, h);
        }
      } else {
        KnownFree(sd, last);
        KnownLearned(sd, last, old_, code);
        var str := Spoken(sd, last + 1, old_, code);
        if last + 1 < HSize && str != [] {
          InOrderDecodes(input, q, t1, size, Learned(sd, last + 1, old_, str[0]), last + 1, code, h + str);
        }
      }
    }
  }

  ghost predicate Uncleared(input: seq<Byte>) {
    E.EndsWhen(|input|, 0, 0, 9);
    E.Ends(|input|, 0, 0, 9) || NeverCleared(input, 9, E.TakenAfter(|input|, 0, 0, 9), 9)
  }

  /** The first code is a character, and every other one is known or next. */
  ghost predicate Orderly(input: seq<Byte>) {
    E.EndsWhen(|input|, 0, 0, 9);
    E.Ends(|input|, 0, 0, 9) || (Peek(input, 0, 9) < BogusCode && InOrder(input, 9, E.TakenAfter(|input|, 0, 0, 9), 9, BogusCode))
  }

  /** A member without partial clears has a meaning exactly if it is orderly. */
  lemma OrderlyDecodes(input: seq<Byte>)
    requires Uncleared(input)
    ensures UnshrunkS(input).Decoded? <==> Orderly(input)
  {
    E.EndsWhen(|input|, 0, 0, 9);
    KnownLetters();
    hide Peek, E.Ends, E.TakenAfter, Letters, AllKnown;
    var first := Peek(input, 0, 9);
    if !E.Ends(|input|, 0, 0, 9) && first < BogusCode {
      InOrderDecodes(input, 9, E.TakenAfter(|input|, 0, 0, 9), 9, Letters(), BogusCode, first, [first]);
    }
  }

  /** Such members decode, to what a dictionary of strings says. */
  lemma OrderlyUnshrunk(input: seq<Byte>)
    requires Uncleared(input) && Orderly(input)
    ensures Unshrunk(input).Decoded? && Unshrunk(input) == UnshrunkS(input)
  {
    hide Unshrunk, UnshrunkS, Uncleared, Orderly;
    OrderlyDecodes(input);
    StringsDecode(input);
  }

  lemma KnownLetters()
    ensures AllKnown(Letters(), BogusCode) && forall c: nat :: c < BogusCode ==> c in Letters()
  {
  }

  /** The bit buffer takes up four bytes at first, and then as many as there is room for. */
  lemma FourBytes(total: nat)
    requires total >= 4
    ensures E.Filled(total, 0, 0) == 4 && E.TakenAfter(total, 27, 4, 9) == if total > 7 then 7 else total
  {
    assert total >= 7 ==> E.Filled(total, 27, 7) == 7;
    assert total >= 6 ==> E.Filled(total, 27, 6) == if total > 6 then 7 else 6;
    assert total >= 5 ==> E.Filled(total, 27, 5) == if total > 7 then 7 else total;
    assert E.Filled(total, 0, 4) == 4 && E.Filled(total, 0, 3) == 4 && E.Filled(total, 0, 2) == 4 && E.Filled(total, 0, 1) == 4;
  }

  /** A single byte is output as it is, made up to nine bits with a zero: the end is only found
      when the next code is read. */
  lemma OneByte(b: Byte)
    ensures !E.Ends(1, 0, 0, 9) && UnshrunkS([b]) == Unshrunk([b]) == Decoded([b])
  {
    var input := [b];
    E.EndsWhen(1, 0, 0, 9);
    E.EndsWhen(1, 9, 1, 9);
    assert E.Filled(1, 0, 0) == E.Filled(1, 0, 1) == 1;
    assert Peek(input, 0, 9) == b by {
      PeekByte(input, 0, 8);
      E.PeekPast(input, 0, 8, 9);
    }
    hide Peek;
    assert UnshrunkS(input) == Decoded([b]);
    StringsDecode(input);
  }
}
