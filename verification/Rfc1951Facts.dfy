/** Facts about the meaning of a deflate stream that do not mention the decoder. */
module Rfc1951Facts {
  import opened Wrappers
  import opened Bits
  import opened BitStream
  import opened Canonical
  import opened HuftWidth
  import opened Huffman
  import opened Window
  import opened Runs
  import opened Rfc1951

  // ----- the steps of Codes

  lemma CodesLiteral(input: seq<Byte>, ll: seq<nat>, dl: seq<nat>, m: Limits, p: nat, h: seq<Byte>, peek: nat, s: nat, q: nat)
    requires Symbol(ll, input, p) == Some((s, q)) && s < 256
    ensures Codes(input, ll, dl, m, p, h, peek) == Codes(input, ll, dl, m, q, h + [s], Max(peek, p + Asked(ll, m.l, s)))
  {
    hide Symbol, Match, DistanceAt, DistancePeek, Asked, MaxLen, CopyMatch, LengthExtra, LengthBase, BitLen;
  }

  lemma CodesEnd(input: seq<Byte>, ll: seq<nat>, dl: seq<nat>, m: Limits, p: nat, h: seq<Byte>, peek: nat, q: nat)
    requires Symbol(ll, input, p) == Some((256, q))
    ensures Codes(input, ll, dl, m, p, h, peek) == Done(h, q, peek)
  {
    hide Symbol, Match, DistanceAt, DistancePeek, Asked, MaxLen, CopyMatch, LengthExtra, LengthBase, BitLen;
  }

  /** The step of `Codes` for a length symbol. */
  lemma CodesMatch(input: seq<Byte>, ll: seq<nat>, dl: seq<nat>, m: Limits, p: nat, h: seq<Byte>, peek: nat, s: nat, q: nat)
    requires Symbol(ll, input, p) == Some((s, q)) && 257 <= s <= 285
    ensures var o := Codes(input, ll, dl, m, p, h, peek);
            var peek' := Max(Max(peek, p + Asked(ll, m.l, s)), DistancePeek(input, dl, m.d, q + LengthExtra(s - 257)));
            match Match(input, dl, s, q)
            case None => o.Fail?
            case Some((n, dist, q')) =>
              if dist > |h| then o.Fail? else o == Codes(input, ll, dl, m, q', CopyMatch(h, dist, n), peek')
  {
    hide Symbol, Match, DistanceAt, DistancePeek, Asked, MaxLen, CopyMatch, LengthExtra, LengthBase, BitLen;
  }

  lemma MatchAfter(input: seq<Byte>, dl: seq<nat>, s: nat, p: nat)
    requires Match(input, dl, s, p).Some?
    ensures 257 <= s <= 285 && p + LengthExtra(s - 257) < Match(input, dl, s, p).value.2
  {
  }

  // ----- what stands before the output does not matter to a stream that stays inside it

  /** The outcome with `pre` put in front of the history. */
  function Behind(pre: seq<Byte>, o: Outcome): Outcome {
    if o.Fail? then Fail else Done(pre + o.hist, o.pos, o.peek)
  }

  lemma {:induction false} CodesFrame(pre: seq<Byte>, input: seq<Byte>, ll: seq<nat>, dl: seq<nat>, m: Limits, p: nat, h: seq<Byte>, peek: nat)
    requires Codes(input, ll, dl, m, p, h, peek).Done?
    ensures Codes(input, ll, dl, m, p, pre + h, peek) == Behind(pre, Codes(input, ll, dl, m, p, h, peek))
    decreases BitLen(input) - p
  {
    hide Symbol, Match, DistancePeek, Asked, MaxLen, LengthExtra, BitLen, CopyMatch;
    var (s, q) := Symbol(ll, input, p).value;
    var peek' := Max(peek, p + Asked(ll, m.l, s));
    if s < 256 {
      assert pre + (h + [s]) == (pre + h) + [s];
      CodesFrame(pre, input, ll, dl, m, q, h + [s], peek');
    } else if s > 256 {
      MatchAfter(input, dl, s, q);
      var (n, dist, q') := Match(input, dl, s, q).value;
      CopyMatchFrame(pre, h, dist, n);
      CodesFrame(pre, input, ll, dl, m, q', CopyMatch(h, dist, n), Max(peek', DistancePeek(input, dl, m.d, q + LengthExtra(s - 257))));
    }
  }

  lemma BlockFrame(pre: seq<Byte>, input: seq<Byte>, kind: nat, p: nat, h: seq<Byte>, peek: nat)
    requires Block(input, kind, p, h, peek).Done?
    ensures Block(input, kind, p, pre + h, peek) == Behind(pre, Block(input, kind, p, h, peek))
  {
    hide Codes, ReadLengths, CodeLengths, UsableCode, UsableDistances, Peek, StoredLength, FixedLengths, FixedDistances;
    if kind == 0 {
      var q := ByteBoundary(p);
      var n := StoredLength(input, q).value;
      assert pre + (h + input[q + 4..q + 4 + n]) == (pre + h) + input[q + 4..q + 4 + n];
    } else if kind == 1 {
      CodesFrame(pre, input, FixedLengths(), FixedDistances(), FixedLimits, p, h, peek);
    } else {
      var nl := 257 + Peek(input, p, 5);
      var nd := 1 + Peek(input, p + 5, 5);
      var nb := 4 + Peek(input, p + 10, 4);
      var cl := CodeLengths(input, p + 14, nb);
      var rl := ReadLengths(input, cl, nl + nd, p + 14 + 3 * nb, [], peek);
      CodesFrame(pre, input, rl.l[..nl], rl.l[nl..], DynamicLimits, rl.pos, h, rl.peek);
    }
  }

  /** A stream whose distances all stay within its own output means the same whatever stands
      before that output. */
  lemma {:induction false} StreamFrame(pre: seq<Byte>, input: seq<Byte>, p: nat, h: seq<Byte>, peek: nat)
    requires Stream(input, p, h, peek).Done?
    ensures Stream(input, p, pre + h, peek) == Behind(pre, Stream(input, p, h, peek))
    decreases BitLen(input) - p
  {
    hide Block, Peek, BitLen;
    var kind := Peek(input, p + 1, 2);
    BlockFrame(pre, input, kind, p + 3, h, peek);
    var o := Block(input, kind, p + 3, h, peek);
    if BitAt(input, p) != 1 {
      StreamFrame(pre, input, o.pos, o.hist, o.peek);
    }
  }

  // ----- how far past the end a decoder may look

  /** No bit more than fourteen past the end is ever looked at. */
  ghost predicate Near(peek: nat, o: Outcome) {
    o.Done? ==> o.peek <= Max(peek, o.pos + 14)
  }

  lemma {:induction false} CodesNear(input: seq<Byte>, ll: seq<nat>, dl: seq<nat>, m: Limits, p: nat, h: seq<Byte>, peek: nat)
    requires MaxLen(ll) <= 15 && MaxLen(dl) <= 15
    ensures Near(peek, Codes(input, ll, dl, m, p, h, peek))
    decreases BitLen(input) - p
  {
    hide *;
    var o := Codes(input, ll, dl, m, p, h, peek);
    if o.Done? {
      var s, q := CodesSymbol(input, ll, dl, m, p, h, peek);
      var peek' := Max(peek, p + Asked(ll, m.l, s));
      if s < 256 {
        CodesLiteral(input, ll, dl, m, p, h, peek, s, q);
        CodesNear(input, ll, dl, m, q, h + [s], peek');
        NearStep(peek, peek', p, o, Asked(ll, m.l, s));
      } else if s > 256 {
        CodesMatch(input, ll, dl, m, p, h, peek, s, q);
        var (n, dist, q') := Match(input, dl, s, q).value;
        MatchAfter(input, dl, s, q);
        var x := q + LengthExtra(s - 257);
        DistancePeekNear(input, dl, m.d, x);
        var peek'' := Max(peek', DistancePeek(input, dl, m.d, x));
        CodesNear(input, ll, dl, m, q', CopyMatch(h, dist, n), peek'');
        NearStep(peek', peek'', x, o, DistancePeek(input, dl, m.d, x) - x);
        NearStep(peek, peek', p, o, Asked(ll, m.l, s));
      } else {
        CodesEnd(input, ll, dl, m, p, h, peek, q);
        NearRefl(peek, o);
      }
    } else {
      NearRefl(peek, o);
    }
  }

  lemma DistancePeekNear(input: seq<Byte>, dl: seq<nat>, m: nat, p: nat)
    ensures p <= DistancePeek(input, dl, m, p) <= p + MaxLen(dl)
  {
    hide Symbol, MaxLen;
  }

  lemma NearRefl(peek: nat, o: Outcome)
    requires o.Done? ==> o.peek == peek
    ensures Near(peek, o)
  {
  }

  lemma NearStep(peek: nat, peek': nat, p: nat, o: Outcome, m: nat)
    requires peek' == Max(peek, p + m) && m <= 15 && Near(peek', o) && (o.Done? ==> p < o.pos)
    ensures Near(peek, o)
  {
  }

  /** A defined block has a symbol to start with, and a match where it needs one. */
  lemma CodesSymbol(input: seq<Byte>, ll: seq<nat>, dl: seq<nat>, m: Limits, p: nat, h: seq<Byte>, peek: nat) returns (s: nat, q: nat)
    requires Codes(input, ll, dl, m, p, h, peek).Done?
    ensures Symbol(ll, input, p) == Some((s, q)) && s <= 285 && q <= BitLen(input) && p < q
    ensures s > 256 ==> Match(input, dl, s, q).Some? && Match(input, dl, s, q).value.1 <= |h|
    ensures s > 256 ==> 1 <= Match(input, dl, s, q).value.1 && q < Match(input, dl, s, q).value.2 <= BitLen(input)
  {
    hide Symbol, DistanceAt, MaxLen, LengthExtra, LengthBase, CopyMatch, Peek;
    s, q := Symbol(ll, input, p).value.0, Symbol(ll, input, p).value.1;
  }

  ghost predicate Below16(l: seq<nat>) {
    forall i :: 0 <= i < |l| ==> l[i] < 16
  }

  lemma MaxBelow16(l: seq<nat>)
    requires Below16(l)
    ensures MaxLen(l) <= 15
  {
    assert MaxLen(l) > 0 ==> MaxLen(l) in l;
  }

  lemma RunBelow(input: seq<Byte>, acc: seq<nat>, s: nat, p: nat)
    requires Below16(acc)
    ensures var r := Run(input, acc, s, p);
            r.Some? ==> Below16(acc + r.value.0) && |r.value.0| > 0 && p <= r.value.1
  {
    hide Peek;
    var r := Run(input, acc, s, p);
    if r.Some? {
      forall i | 0 <= i < |r.value.0| ensures r.value.0[i] < 16 {
        assert r.value.0[i] in acc ==> r.value.0[i] < 16;
      }
    }
  }

  lemma {:induction false} ReadLengthsNear(input: seq<Byte>, cl: seq<nat>, n: nat, p: nat, acc: seq<nat>, peek: nat)
    requires |acc| <= n && MaxLen(cl) <= 15 && Below16(acc)
    ensures var o := ReadLengths(input, cl, n, p, acc, peek);
            o.AllLengths? ==> Below16(o.l) && o.peek <= Max(peek, o.pos + 14)
    decreases n - |acc|
  {
    hide LengthSymbol, Run, MaxLen, Peek, Below16;
    if |acc| < n && LengthSymbol(cl, input, p).Some? {
      var (s, q) := LengthSymbol(cl, input, p).value;
      RunBelow(input, acc, s, q);
      if Run(input, acc, s, q).Some? {
        var (run, q') := Run(input, acc, s, q).value;
        if |acc| + |run| <= n {
          ReadLengthsNear(input, cl, n, q', acc + run, Max(peek, p + MaxLen(cl)));
        }
      }
    }
  }

  lemma CodeLengthsSmall(input: seq<Byte>, p: nat, nb: nat)
    ensures Below16(CodeLengths(input, p, nb))
  {
    assert Pow2(3) == 8;
    hide Pow2, Peek;
    forall j: nat ensures CodeLengthAt(input, p, nb, j) < 8 {
      PeekBound(input, p + 3 * j, 3);
    }
  }

  lemma FixedSmall()
    ensures Below16(FixedLengths()) && Below16(FixedDistances())
  {
  }

  lemma BlockNear(input: seq<Byte>, kind: nat, p: nat, h: seq<Byte>, peek: nat)
    ensures Near(peek, Block(input, kind, p, h, peek))
  {
    hide Codes, ReadLengths, CodeLengths, UsableCode, UsableDistances, Peek, StoredLength, FixedLengths, FixedDistances, Below16, MaxLen;
    if kind == 1 {
      FixedSmall();
      MaxBelow16(FixedLengths());
      MaxBelow16(FixedDistances());
      CodesNear(input, FixedLengths(), FixedDistances(), FixedLimits, p, h, peek);
    } else if kind == 2 && Block(input, kind, p, h, peek).Done? {
      var nl := 257 + Peek(input, p, 5);
      var nd := 1 + Peek(input, p + 5, 5);
      var nb := 4 + Peek(input, p + 10, 4);
      var cl := CodeLengths(input, p + 14, nb);
      CodeLengthsSmall(input, p + 14, nb);
      MaxBelow16(cl);
      EmptyBelow();
      var rl := ReadLengths(input, cl, nl + nd, p + 14 + 3 * nb, [], peek);
      ReadLengthsNear(input, cl, nl + nd, p + 14 + 3 * nb, [], peek);
      PartsBelow(rl.l, nl);
      MaxBelow16(rl.l[..nl]);
      MaxBelow16(rl.l[nl..]);
      CodesNear(input, rl.l[..nl], rl.l[nl..], DynamicLimits, rl.pos, h, rl.peek);
    }
  }

  lemma EmptyBelow()
    ensures Below16([])
  {
  }

  lemma PartsBelow(l: seq<nat>, n: nat)
    requires Below16(l) && n <= |l|
    ensures Below16(l[..n]) && Below16(l[n..])
  {
  }

  /** Fourteen bits after the end of a stream are all that its decoder may ever want to see. */
  lemma {:induction false} StreamNear(input: seq<Byte>, p: nat, h: seq<Byte>, peek: nat)
    ensures Near(peek, Stream(input, p, h, peek))
    decreases BitLen(input) - p
  {
    hide Block, Peek, BitLen, Near;
    if Stream(input, p, h, peek).Done? {
      var kind := Peek(input, p + 1, 2);
      BlockNear(input, kind, p + 3, h, peek);
      var o := Block(input, kind, p + 3, h, peek);
      if BitAt(input, p) != 1 {
        StreamNear(input, o.pos, o.hist, o.peek);
        NearTrans(peek, o, Stream(input, o.pos, o.hist, o.peek));
      }
    } else {
      NearRefl(peek, Stream(input, p, h, peek));
    }
  }

  lemma NearTrans(peek: nat, o: Outcome, o': Outcome)
    requires o.Done? && Near(peek, o) && Near(o.peek, o') && (o'.Done? ==> o.pos <= o'.pos)
    ensures Near(peek, o')
  {
  }

  /** One block of a stream. */
  lemma StreamStep(input: seq<Byte>, p: nat, h: seq<Byte>, peek: nat)
    ensures var o := Stream(input, p, h, peek);
            if p + 3 > BitLen(input) then o.Fail?
            else match Block(input, Peek(input, p + 1, 2), p + 3, h, peek)
              case Fail => o.Fail?
              case Done(h', q, peek') =>
                && p < q <= BitLen(input)
                && if BitAt(input, p) == 1 then o == Done(h', q, peek')
                   else o == Stream(input, q, h', peek') && (o.Done? ==> peek' <= o.peek)
  {
    hide Block, Peek;
  }

  // ----- the code length code, read without looking at the operation byte

  /** A lone one-bit code word is the bit zero. */
  lemma LoneCode(cl: seq<nat>, input: seq<Byte>, p: nat, s: nat, t: nat)
    requires Lone(cl) && s < |cl| && cl[s] == 1
    ensures HasCode(cl, t, input, p) <==> t == s && BitAt(input, p) == 0
  {
    CountPrefix(cl, s, 1);
    assert CodeOf(cl, s) == 0;
    assert Msb(input, p, 0) == 0 && p + 1 - 1 == p;
    assert Msb(input, p, cl[s]) == BitAt(input, p);
    if t < |cl| && cl[t] > 0 {
      LoneUnique(cl, s, t);
    }
  }

  /** How code length symbols are read departs from the canonical code exactly when the code has
      a single one-bit code word and the stream has a one there, which no symbol is coded as. */
  lemma LengthSymbolExact(cl: seq<nat>, input: seq<Byte>, p: nat)
    ensures LengthSymbol(cl, input, p) == Symbol(cl, input, p) <==>
              !(Lone(cl) && p < BitLen(input) && BitAt(input, p) == 1)
  {
    if Lone(cl) {
      LoneHas(cl);
      var s: nat :| s < |cl| && cl[s] == 1;
      forall t: nat ensures HasCode(cl, t, input, p) <==> t == s && BitAt(input, p) == 0 {
        LoneCode(cl, input, p, s, t);
      }
      if p < BitLen(input) && BitAt(input, p) == 0 {
        SymbolIs(cl, s, input, p);
        var t := LengthSymbol(cl, input, p).value.0;
        assert forall t: nat :: t < |cl| && cl[t] == 1 ==> t == s by {
          forall t: nat | t < |cl| && cl[t] == 1 ensures t == s {
            LoneUnique(cl, s, t);
          }
        }
      }
    }
  }

  /** It does on a single one-bit code word and a stream that starts with a one. */
  lemma LoneOne()
    ensures LengthSymbol([1], [1], 0) == Some((0, 1)) && Symbol([1], [1], 0) == None
  {
    assert Lone([1]);
    assert BitAt([1], 0) == 1;
    forall t: nat ensures !HasCode([1], t, [1], 0) {
      LoneCode([1], [1], 0, 0, t);
    }
  }
}
