/** unshrink and partial_clear: LZW decoding with parent links, in place, with flag bits in the
  upper bits of the links. */
module Unshrink {
  import opened Wrappers
  import opened Bits
  import opened BitStream
  import opened Lzw
  import opened LzwStrings
  import opened OutBuf
  import E = EagerReader

  const FreeCode: nat := 0x2000  // the code is unused or was cleared
  const HasChildBit: nat := 0x4000

  /** `x & CODE_MASK` */
  function Link(x: nat): (r: nat)
    ensures r < HSize
  {
    x % HSize
  }

  /** `x & HAS_CHILD`, for links with at most that one bit above the rest. */
  predicate Flagged(x: nat) {
    x >= HasChildBit
  }

  // ----- partial_clear

  /** A link without flags: an index, or `FreeCode`. */
  predicate Plain(x: nat) {
    x <= FreeCode
  }

  predicate AllPlain(pa: seq<nat>) {
    |pa| == HSize && forall c :: BogusCode < c < HSize ==> Plain(pa[c])
  }

  /** Among the codes below `n`, one in use has `c` as its parent. */
  ghost predicate Parent(pa: seq<nat>, n: nat, c: nat)
    requires n <= |pa|
  {
    exists e :: BogusCode < e < n && pa[e] != FreeCode && pa[e] == c
  }

  /** A code is in use afterwards iff it was, and was the parent of a code in use; the links of
      those codes are what they were. */
  ghost function ClearedLink(pa: seq<nat>, c: nat): nat
    requires |pa| == HSize && c < HSize
  {
    if c <= BogusCode || (pa[c] != FreeCode && Parent(pa, HSize, c)) then pa[c] else FreeCode
  }

  ghost predicate Cleared(pa: seq<nat>, qa: seq<nat>) {
    |pa| == |qa| == HSize && forall c: nat :: c < HSize ==> qa[c] == ClearedLink(pa, c)
  }

  /** After the first loop has seen the codes below `n`. */
  ghost predicate MarkedAt(pa: seq<nat>, qa: seq<nat>, n: nat, c: nat)
    requires n <= |pa| == |qa| == HSize && c < HSize
  {
    qa[c] == if c > BogusCode && Parent(pa, n, c) then pa[c] + HasChildBit else pa[c]
  }

  ghost predicate Marked(pa: seq<nat>, qa: seq<nat>, n: nat) {
    n <= |pa| == |qa| == HSize && forall c: nat :: c < HSize ==> MarkedAt(pa, qa, n, c)
  }

  lemma ParentNext(pa: seq<nat>, n: nat, c: nat)
    requires BogusCode < n < |pa|
    ensures Parent(pa, n + 1, c) <==> Parent(pa, n, c) || (pa[n] != FreeCode && pa[n] == c)
  {
  }

  /** The array after the first loop has looked at code `n`. */
  function Mark(qa: seq<nat>, n: nat): (r: seq<nat>)
    requires n < |qa| == HSize
    ensures |r| == HSize
  {
    var up := Link(qa[n]);
    if up > BogusCode && up != FreeCode && !Flagged(qa[up]) then qa[up := qa[up] + HasChildBit] else qa
  }

  lemma MarkNext(pa: seq<nat>, qa: seq<nat>, n: nat, n': nat)
    requires AllPlain(pa) && Marked(pa, qa, n) && BogusCode < n < HSize && n' == n + 1
    ensures Marked(pa, Mark(qa, n), n')
  {
    var up := Link(qa[n]);
    assert MarkedAt(pa, qa, n, n);
    assert Plain(pa[n]);
    assert up == if pa[n] == FreeCode then 0 else pa[n];
    var qa' := Mark(qa, n);
    forall c: nat | c < HSize ensures MarkedAt(pa, qa', n', c) {
      assert MarkedAt(pa, qa, n, c);
      ParentNext(pa, n, c);
      if c > BogusCode {
        assert Plain(pa[c]);
      }
    }
  }

  lemma MarkedNone(pa: seq<nat>, n: nat)
    requires |pa| == HSize && n == BogusCode + 1
    ensures Marked(pa, pa, n)
  {
    assert forall c: nat :: c < HSize ==> MarkedAt(pa, pa, n, c);
  }

  /** What the second loop does to one code. */
  lemma ClearCode(pa: seq<nat>, qa: seq<nat>, c: nat)
    requires AllPlain(pa) && Marked(pa, qa, HSize) && c < HSize
    ensures c <= BogusCode ==> qa[c] == pa[c]
    ensures c > BogusCode ==>
              ClearedLink(pa, c) == if Flagged(qa[c]) then qa[c] - HasChildBit else FreeCode
  {
    assert MarkedAt(pa, qa, HSize, c);
    if c > BogusCode {
      assert Plain(pa[c]);
    }
  }

  lemma ClearedAll(pa: seq<nat>, qa: seq<nat>, ra: seq<nat>)
    requires AllPlain(pa) && Marked(pa, qa, HSize) && |ra| == HSize
    requires forall c: nat :: BogusCode < c < HSize ==> ra[c] == ClearedLink(pa, c)
    requires forall c: nat :: c <= BogusCode ==> ra[c] == qa[c]
    ensures Cleared(pa, ra) && AllPlain(ra)
  {
    forall c: nat | c < HSize ensures ra[c] == ClearedLink(pa, c) {
      ClearCode(pa, qa, c);
    }
    forall c | BogusCode < c < HSize ensures Plain(ra[c]) {
      assert ra[c] == ClearedLink(pa, c);
      assert Plain(pa[c]);
    }
  }

  /** `partial_clear`. */
  method PartialClearCodes(parent: array<nat>)
    requires parent.Length == HSize && AllPlain(parent[..])
    modifies parent
    ensures Cleared(old(parent[..]), parent[..]) && AllPlain(parent[..])
  {
    hide Marked, MarkedAt, Parent, AllPlain, Plain, Cleared, ClearedLink, Link;
    ghost var pa := parent[..];
    var code := BogusCode + 1;
    MarkedNone(pa, code);
    // first loop:  mark each parent as such
    while code < HSize
      invariant BogusCode < code <= HSize
      invariant Marked(pa, parent[..], code)
    {
      ghost var before := parent[..];
      MarkNext(pa, before, code, code + 1);
      var up := Link(parent[code]);
      if up > BogusCode && up != FreeCode {
        if !Flagged(parent[up]) {  // |= HAS_CHILD
          parent[up] := parent[up] + HasChildBit;
        }
      }
      assert parent[..] == Mark(before, code);
      code := code + 1;
    }
    ghost var qa := parent[..];
    code := BogusCode + 1;
    // second loop:  clear all nodes *not* marked as parents; reset flag bits
    while code < HSize
      invariant BogusCode < code <= HSize
      invariant forall c: nat :: BogusCode < c < code ==> parent[c] == ClearedLink(pa, c)
      invariant forall c: nat :: c <= BogusCode || code <= c < HSize ==> parent[c] == qa[c]
    {
      ClearCode(pa, qa, code);
      if Flagged(parent[code]) {
        parent[code] := parent[code] - HasChildBit;
      } else {
        parent[code] := FreeCode;
      }
      code := code + 1;
    }
    ClearedAll(pa, qa, parent[..]);
  }

  // ----- the arrays and the dictionary

  /** The arrays say about code `c` what the dictionary says. */
  ghost predicate RepAt(pa: seq<nat>, va: seq<Byte>, d: Dict, c: nat)
    requires |pa| == |va| == HSize && c < HSize
  {
    if c == BogusCode then c !in d
    else if c in d then
      pa[c] == d[c].up < HSize && va[c] == d[c].ch && (c < BogusCode ==> d[c].up == BogusCode)
    else c > BogusCode && pa[c] == FreeCode
  }

  ghost predicate Rep(pa: seq<nat>, va: seq<Byte>, d: Dict) {
    && |pa| == |va| == HSize
    && (forall c :: c in d ==> c < HSize)
    && (forall c: nat :: c < HSize ==> RepAt(pa, va, d, c))
  }

  lemma RepSized(pa: seq<nat>, va: seq<Byte>, d: Dict)
    requires Rep(pa, va, d)
    ensures AllPlain(pa) && Sized(d)
  {
    forall c: nat | BogusCode < c < HSize ensures Plain(pa[c]) {
      assert RepAt(pa, va, d, c);
    }
    forall c | c in d ensures c < HSize && c != BogusCode && (c < BogusCode ==> d[c].up == BogusCode) {
      assert RepAt(pa, va, d, c);
    }
  }

  lemma RepFree(pa: seq<nat>, va: seq<Byte>, d: Dict, c: nat)
    requires Rep(pa, va, d) && c < HSize && c != BogusCode
    ensures pa[c] == FreeCode <==> c !in d
  {
    assert RepAt(pa, va, d, c);
  }

  /** The new leaf. */
  lemma RepAdd(pa: seq<nat>, va: seq<Byte>, d: Dict, free: nat, old_: nat, ch: Byte)
    requires Rep(pa, va, d) && BogusCode < free < HSize && free !in d && old_ < HSize
    ensures Rep(pa[free := old_], va[free := ch], d[free := Entry(old_, ch)])
  {
    var pa', va', d' := pa[free := old_], va[free := ch], d[free := Entry(old_, ch)];
    forall c: nat | c < HSize ensures RepAt(pa', va', d', c) {
      assert RepAt(pa, va, d, c);
    }
  }

  lemma ChildIsParent(pa: seq<nat>, va: seq<Byte>, d: Dict, c: nat)
    requires Rep(pa, va, d)
    ensures HasChild(d, c) <==> Parent(pa, HSize, c)
  {
    if HasChild(d, c) {
      var e: nat :| e in d && e > BogusCode && d[e].up == c;
      assert RepAt(pa, va, d, e);
    }
    if Parent(pa, HSize, c) {
      var e: nat :| BogusCode < e < HSize && pa[e] != FreeCode && pa[e] == c;
      assert RepAt(pa, va, d, e);
    }
  }

  /** Clearing by flag bits is clearing of the dictionary. */
  lemma RepClear(pa: seq<nat>, qa: seq<nat>, va: seq<Byte>, d: Dict)
    requires Rep(pa, va, d) && Cleared(pa, qa)
    ensures Rep(qa, va, PartialClear(d))
  {
    forall c: nat | c < HSize ensures RepAt(qa, va, PartialClear(d), c) {
      ClearAt(pa, qa, va, d, c);
    }
  }

  lemma ClearAt(pa: seq<nat>, qa: seq<nat>, va: seq<Byte>, d: Dict, c: nat)
    requires Rep(pa, va, d) && Cleared(pa, qa) && c < HSize
    ensures RepAt(qa, va, PartialClear(d), c)
  {
    hide Rep, HasChild, Parent, Cleared;
    RepHas(pa, va, d, c);
    ClearedHas(pa, qa, c);
    ChildIsParent(pa, va, d, c);
  }

  lemma RepHas(pa: seq<nat>, va: seq<Byte>, d: Dict, c: nat)
    requires Rep(pa, va, d) && c < HSize
    ensures |pa| == |va| == HSize && RepAt(pa, va, d, c)
  {
  }

  lemma ClearedHas(pa: seq<nat>, qa: seq<nat>, c: nat)
    requires Cleared(pa, qa) && c < HSize
    ensures |pa| == |qa| == HSize && qa[c] == ClearedLink(pa, c)
  {
  }

  // ----- unshrink

  /** The string of a code that still has `n` characters to go; the escape code ends it. */
  ghost function Text(d: Dict, c: nat, n: nat): Option<seq<Byte>> {
    if c == BogusCode then Some([]) else Str(d, c, n)
  }

  /** One step from a code towards its first character. */
  lemma Climb(pa: seq<nat>, va: seq<Byte>, d: Dict, c: nat, n: nat)
    requires Rep(pa, va, d) && c != BogusCode && Text(d, c, n).Some?
    ensures c < HSize && n > 0
    ensures var up := Text(d, Link(pa[c]), n - 1);
            up.Some? && Text(d, c, n) == Some(up.value + [va[c]])
  {
    assert c in d;
    assert RepAt(pa, va, d, c);
    assert [] + [va[c]] == [va[c]];
  }

  class Codes {
    const parent: array<nat>
    const value: array<Byte>
    const stack: array<Byte>

    ghost predicate Valid(d: Dict)
      reads parent, value
    {
      && parent.Length == value.Length == stack.Length == HSize && stack != value
      && Rep(parent[..], value[..], d)
    }

    constructor ()
      ensures Valid(Start()) && fresh(parent) && fresh(value) && fresh(stack)
    {
      parent, value, stack := new nat[HSize], new Byte[HSize], new Byte[HSize];
      new;
      var code := 0;
      while code < BogusCode
        invariant code <= BogusCode
        invariant forall c: nat :: c < code ==> value[c] == c && parent[c] == BogusCode
      {
        value[code], parent[code] := code, BogusCode;
        code := code + 1;
      }
      code := BogusCode + 1;
      while code < HSize
        invariant BogusCode < code <= HSize
        invariant forall c: nat :: c < BogusCode ==> value[c] == c && parent[c] == BogusCode
        invariant forall c: nat :: BogusCode < c < code ==> parent[c] == FreeCode
      {
        parent[code] := FreeCode;
        code := code + 1;
      }
    }

    /** The characters from `code` to its root go onto the stack, downwards from below `top`. */
    method Traverse(code: nat, top: nat, ghost d: Dict) returns (newstr: nat)
      requires Valid(d) && String(d, code).Some? && |String(d, code).value| <= top <= HSize
      modifies stack
      ensures Valid(d) && newstr <= top && Some(stack[newstr..top]) == String(d, code)
      ensures stack[top..] == old(stack[top..])
    {
      hide Rep, Link, Str;
      var cur, ns := code, top;
      ghost var n := HSize;
      RepSized(parent[..], value[..], d);
      ghost var s := String(d, code).value;
      assert stack[ns..top] == [] && s + [] == s;
      while cur != BogusCode
        invariant Valid(d) && Text(d, cur, n).Some?
        invariant ns <= top && |Text(d, cur, n).value| <= ns
        invariant String(d, code) == Some(Text(d, cur, n).value + stack[ns..top])
        invariant stack[top..] == old(stack[top..])
        decreases if cur == BogusCode then 0 else 1 + n
      {
        Climb(parent[..], value[..], d, cur, n);
        ghost var up, before := Text(d, Link(parent[cur]), n - 1), stack[..];
        ns := ns - 1;
        stack[ns] := value[cur];
        Push(up.value, before, ns, top, value[cur], stack[..]);
        cur, n := Link(parent[cur]), n - 1;
      }
      assert [] + stack[ns..top] == stack[ns..top];
      newstr := ns;
    }

    /** Translate code:  traverse tree from leaf back to root.  The string is left at the end of
        the stack, from `newstr` on. */
    method Translate(code: nat, oldcode: nat, ghost d: Dict) returns (newstr: nat)
      requires Valid(d) && code < HSize && code != BogusCode && Output(d, oldcode, code).Some?
      modifies stack
      ensures Valid(d) && newstr < HSize && Some(stack[newstr..]) == Output(d, oldcode, code)
    {
      hide Rep, Str;
      RepFree(parent[..], value[..], d, code);
      RepSized(parent[..], value[..], d);
      if parent[code] == FreeCode {
        // last character will be same as first character
        StringFits(d, oldcode, HSize);
        newstr := Traverse(oldcode, HSize - 1, d);
        ghost var before := stack[..];
        stack[HSize - 1] := stack[newstr];
        assert stack[newstr..] == before[newstr..HSize - 1] + [before[newstr]];
      } else {
        StringFits(d, code, HSize);
        newstr := Traverse(code, HSize, d);
        assert stack[newstr..] == stack[newstr..HSize];
      }
    }
  }

  lemma Push(a: seq<Byte>, st: seq<Byte>, ns: nat, top: nat, x: Byte, st': seq<Byte>)
    requires ns < top <= |st| && st' == st[ns := x]
    ensures a + [x] + st[ns + 1..top] == a + st'[ns..top] && st'[top..] == st[top..]
  {
    assert st'[ns..top] == [x] + st[ns + 1..top];
  }

  /** The decoder's state at position `p`, with `t` bytes taken: what comes is what is left of the
      whole member. */
  ghost predicate Running(input: seq<Byte>, p: nat, t: nat, size: nat, d: Dict, last: nat, old_: nat, h: seq<Byte>) {
    && 0 < size <= MaxSize && BogusCode <= last < HSize && old_ < HSize
    && t <= |input| && (p <= 8 * t || t == |input|)
    && var o := Decode(input, p, t, size, d, last, old_, h);
       o.Decoded? && Unshrunk(input) == o
  }

  /** Search for freecode. */
  method FindFree(cs: Codes, last: nat, ghost d: Dict) returns (free: nat)
    requires cs.Valid(d) && BogusCode <= last && last + 1 <= HSize && NextFree(d, last + 1) < HSize
    ensures free == NextFree(d, last + 1)
  {
    hide Rep;
    free := last + 1;
    RepFree(cs.parent[..], cs.value[..], d, free);
    while cs.parent[free] != FreeCode
      invariant last < free < HSize && NextFree(d, free) == NextFree(d, last + 1)
      invariant cs.parent[free] == FreeCode <==> free !in d
      decreases HSize - free
    {
      free := free + 1;
      RepFree(cs.parent[..], cs.value[..], d, free);
    }
  }

  lemma RunningEnd(input: seq<Byte>, p: nat, t: nat, size: nat, d: Dict, last: nat, old_: nat, h: seq<Byte>)
    requires Running(input, p, t, size, d, last, old_, h)
    ensures 0 < size <= MaxSize && t <= |input| && old_ < HSize
    ensures E.Ends(|input|, p, t, size) ==> Unshrunk(input) == Decoded(h)
    ensures !E.Ends(|input|, p, t, size) ==> p < BitLen(input)
  {
    hide Unshrunk;
    E.EndsWhen(|input|, p, t, size);
  }

  /** An escape code. */
  lemma RunningEscape(input: seq<Byte>, p: nat, t: nat, size: nat, d: Dict, last: nat, old_: nat, h: seq<Byte>)
    requires Running(input, p, t, size, d, last, old_, h)
    requires !E.Ends(|input|, p, t, size) && Peek(input, p, size) == BogusCode
    ensures var q, t1 := p + size, E.TakenAfter(|input|, p, t, size);
            var q2, t2, sub := q + size, E.TakenAfter(|input|, q, t1, size), Peek(input, q, size);
            if E.Ends(|input|, q, t1, size) then Unshrunk(input) == Decoded(h)
            else if sub == 1 then Running(input, q2, t2, size + 1, d, last, old_, h)
            else if sub == 2 then Running(input, q2, t2, size, PartialClear(d), BogusCode, old_, h)
            else Running(input, q2, t2, size, d, last, old_, h)
  {
    hide Unshrunk, Peek, PartialClear;
    E.EndsWhen(|input|, p, t, size);
    E.EndsWhen(|input|, p + size, E.TakenAfter(|input|, p, t, size), size);
  }

  /** Any other code. */
  lemma RunningCode(input: seq<Byte>, p: nat, t: nat, size: nat, d: Dict, last: nat, old_: nat, h: seq<Byte>)
    requires Running(input, p, t, size, d, last, old_, h)
    requires !E.Ends(|input|, p, t, size) && Peek(input, p, size) != BogusCode
    ensures BogusCode <= last < HSize
    ensures var code, free := Peek(input, p, size), NextFree(d, last + 1);
            && free < HSize && code < HSize && Output(d, old_, code).Some?
            && var str := Output(d, old_, code).value;
               Running(input, p + size, E.TakenAfter(|input|, p, t, size), size, d[free := Entry(old_, str[0])], free, code, h + str)
  {
    hide Unshrunk, Peek, PartialClear, String;
    E.EndsWhen(|input|, p, t, size);
  }

  /** An escape code at `p` has been read. */
  method Escape(rd: E.EagerReader, cs: Codes, size: nat, last: nat,
                ghost p: nat, ghost t: nat, ghost old_: nat, ghost d: Dict, ghost h: seq<Byte>)
    returns (size': nat, last': nat, ghost d': Dict)
    requires rd.Valid() && !rd.zipeof && rd.Pos() == p + size && cs.Valid(d)
    requires Running(rd.input, p, t, size, d, last, old_, h) && rd.next == E.TakenAfter(|rd.input|, p, t, size)
    requires !E.Ends(|rd.input|, p, t, size) && Peek(rd.input, p, size) == BogusCode
    modifies rd, cs.parent
    ensures rd.Valid() && rd.Pos() == p + 2 * size && cs.Valid(d')
    ensures rd.zipeof ==> Unshrunk(rd.input) == Decoded(h)
    ensures !rd.zipeof ==> Running(rd.input, rd.Pos(), rd.next, size', d', last', old_, h)
  {
    hide Running, Peek, Rep, PartialClear, Cleared, E.Ends, E.TakenAfter;
    RunningEnd(rd.input, p, t, size, d, last, old_, h);
    RunningEscape(rd.input, p, t, size, d, last, old_, h);
    size', last', d' := size, last, d;
    var sub := rd.ReadBits(size);
    if sub == 1 {
      size' := size + 1;
    } else if sub == 2 {
      RepSized(cs.parent[..], cs.value[..], d);
      ghost var pa := cs.parent[..];
      PartialClearCodes(cs.parent);  // clear leafs (nodes with no children)
      RepClear(pa, cs.parent[..], cs.value[..], d);
      d', last' := PartialClear(d), BogusCode;  // reset start of free-node search
    }
  }

  /** Write expanded string to output buffer. */
  method Write(cs: Codes, sink: Sink, newstr: nat)
    requires sink.Valid() && newstr <= cs.stack.Length && sink.buf != cs.stack && sink.buf != cs.value
    modifies sink, sink.buf
    ensures sink.Valid() && sink.Sent() == old(sink.Sent()) + cs.stack[newstr..]
  {
    var p := newstr;
    while p < cs.stack.Length
      invariant newstr <= p <= cs.stack.Length && sink.Valid()
      invariant sink.Sent() == old(sink.Sent()) + cs.stack[newstr..p]
    {
      sink.Put(cs.stack[p]);
      p := p + 1;
      assert cs.stack[newstr..p] == cs.stack[newstr..p - 1] + [cs.stack[p - 1]];
    }
    assert cs.stack[newstr..p] == cs.stack[newstr..];
  }

  /** A code that is not the escape code has been read. */
  method OneCode(cs: Codes, sink: Sink, code: nat, last: nat, oldcode: nat, ghost d: Dict) returns (free: nat)
    requires cs.Valid(d) && sink.Valid() && sink.buf != cs.stack && sink.buf != cs.value
    requires oldcode < HSize && BogusCode <= last < HSize && NextFree(d, last + 1) < HSize
    requires code < HSize && code != BogusCode && Output(d, oldcode, code).Some?
    modifies cs.parent, cs.value, cs.stack, sink, sink.buf
    ensures free == NextFree(d, last + 1) && sink.Valid()
    ensures var str := Output(d, oldcode, code).value;
            && sink.Sent() == old(sink.Sent()) + str
            && cs.Valid(d[free := Entry(oldcode, str[0])])
  {
    hide Rep, Output, NextFree;
    var newstr := cs.Translate(code, oldcode, d);
    ghost var str := Output(d, oldcode, code).value;
    assert str == cs.stack[newstr..] && cs.stack[newstr] == str[0];
    Write(cs, sink, newstr);
    free := FindFree(cs, last, d);
    // Add new leaf (first character of newstr) to tree as child of oldcode.
    RepAdd(cs.parent[..], cs.value[..], d, free, oldcode, str[0]);
    cs.value[free] := cs.stack[newstr];
    cs.parent[free] := oldcode;
  }

  lemma RunningFirst(input: seq<Byte>)
    requires Unshrunk(input).Decoded?
    ensures E.Ends(|input|, 0, 0, 9) ==> Unshrunk(input) == Decoded([])
    ensures !E.Ends(|input|, 0, 0, 9) ==>
              var first := Peek(input, 0, 9);
              first < 512 && Running(input, 9, E.TakenAfter(|input|, 0, 0, 9), 9, Start(), BogusCode, first, [first % 256])
  {
    hide Peek, Decode;
    Nine(input);
    E.EndsWhen(|input|, 0, 0, 9);
  }

  lemma Nine(input: seq<Byte>)
    ensures Peek(input, 0, 9) < 512
  {
    PeekBound(input, 0, 9);
    Pow2Of8();
    Pow2Unfold(9);
  }

  /** One turn of the decoding loop; `done` at the end of the file. */
  method Turn(rd: E.EagerReader, cs: Codes, sink: Sink, size: nat, last: nat, oldcode: nat, ghost d: Dict, ghost h: seq<Byte>)
    returns (size': nat, last': nat, oldcode': nat, done: bool, ghost d': Dict, ghost h': seq<Byte>)
    requires rd.Valid() && !rd.zipeof && cs.Valid(d) && sink.Valid() && sink.buf != cs.stack && sink.buf != cs.value
    requires sink.Sent() == h && Running(rd.input, rd.Pos(), rd.next, size, d, last, oldcode, h)
    modifies rd, cs.parent, cs.value, cs.stack, sink, sink.buf
    ensures rd.Valid() && cs.Valid(d') && sink.Valid() && sink.Sent() == h'
    ensures done == rd.zipeof
    ensures done ==> Unshrunk(rd.input) == Decoded(h')
    ensures !done ==> old(rd.Pos()) < rd.Pos() && old(rd.Pos()) < BitLen(rd.input)
    ensures !done ==> Running(rd.input, rd.Pos(), rd.next, size', d', last', oldcode', h')
  {
    hide Running, Peek, Unshrunk, Rep, Output, NextFree, E.Ends, E.TakenAfter;
    size', last', oldcode', d', h' := size, last, oldcode, d, h;
    ghost var p, t := rd.Pos(), rd.next;
    RunningEnd(rd.input, p, t, size, d, last, oldcode, h);
    var code := rd.ReadBits(size);
    if rd.zipeof {
    } else if code == BogusCode {
      size', last', d' := Escape(rd, cs, size, last, p, t, oldcode, d, h);
    } else {
      RunningCode(rd.input, p, t, size, d, last, oldcode, h);
      last' := OneCode(cs, sink, code, last, oldcode, d);
      ghost var str := Output(d, oldcode, code).value;
      d', h', oldcode' := d[last' := Entry(oldcode, str[0])], h + str, code;
    }
    done := rd.zipeof;
  }

  /** `unshrink`: for every member that means something, exactly what it means; where that can be
      told with a dictionary of strings, it is what strings say. */
  method Unshrink(input: seq<Byte>, outbufsiz: nat) returns (out: seq<Byte>)
    requires outbufsiz > 1
    requires Unshrunk(input).Decoded?
    ensures Unshrunk(input) == Decoded(out)
    ensures UnshrunkS(input).Decoded? ==> UnshrunkS(input) == Decoded(out)
  {
    hide Running, Peek, Unshrunk, UnshrunkS, Rep, E.Ends, E.TakenAfter;
    if UnshrunkS(input).Decoded? {
      StringsDecode(input);
    }
    RunningFirst(input);
    var rd := new E.EagerReader(input);
    var cs := new Codes();
    var sink := new Sink(outbufsiz);
    var codesize, lastfreecode := 9, BogusCode;
    ghost var d, h := Start(), [];
    var oldcode := rd.ReadBits(codesize);
    if !rd.zipeof {  // otherwise the next read finds the end of the file again
      sink.Put(oldcode % 256);
      h := [oldcode % 256];
      var done := false;
      while !done
        invariant rd.Valid() && cs.Valid(d) && sink.Valid() && sink.buf != cs.stack && sink.buf != cs.value
        invariant sink.Sent() == h && rd.input == input && done == rd.zipeof
        invariant !done ==> Running(input, rd.Pos(), rd.next, codesize, d, lastfreecode, oldcode, h)
        invariant done ==> Unshrunk(input) == Decoded(h)
        decreases if done then 0 else 1, if rd.Pos() < BitLen(input) then BitLen(input) - rd.Pos() else 0
      {
        codesize, lastfreecode, oldcode, done, d, h := Turn(rd, cs, sink, codesize, lastfreecode, oldcode, d, h);
      }
    }
    out := sink.Finish();
  }
}
