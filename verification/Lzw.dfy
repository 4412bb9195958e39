/** What a shrunk member means: LZW decoding with a dictionary, growing code sizes and partial
  clearing.  This module knows nothing of arrays or flag bits. */
module Lzw {
  import opened Wrappers
  import opened Bits
  import opened BitStream
  import E = EagerReader

  const HSize: nat := 8192
  const BogusCode: nat := 256   // the escape code
  const MaxSize: nat := 16      // no mask is there for wider codes

  /** An entry: the code it extends, and by which character. */
  datatype Entry = Entry(up: nat, ch: Byte)

  type Dict = map<nat, Entry>

  /** A single character for each of the first 256 codes. */
  function Start(): Dict {
    map c: nat | c < BogusCode :: Entry(BogusCode, c)
  }

  /** The string of a code, if it has at most `n` characters.  There is none if on the way to the
      first character there is a code that stands for nothing, or a circle; partial clearing can
      lead to both. */
  function Str(d: Dict, c: nat, n: nat): (r: Option<seq<Byte>>)
    ensures r.Some? ==> c in d && 0 < |r.value| <= n
    decreases n
  {
    if n == 0 || c !in d then None
    else if d[c].up == BogusCode then Some([d[c].ch])
    else match Str(d, d[c].up, n - 1)
      case None => None
      case Some(s) => Some(s + [d[c].ch])
  }

  /** The string of a code; no string is longer than there are codes. */
  function String(d: Dict, c: nat): (r: Option<seq<Byte>>)
    ensures r.Some? ==> c in d && 0 < |r.value| <= HSize
  {
    Str(d, c, HSize)
  }

  /** The first code from `c` on that stands for nothing, if there is one below `HSize`. */
  function NextFree<T>(d: map<nat, T>, c: nat): (r: nat)
    requires c <= HSize
    ensures c <= r <= HSize
    ensures r < HSize ==> r !in d
    ensures forall i :: c <= i < r ==> i in d
    decreases HSize - c
  {
    if c == HSize || c !in d then c else NextFree(d, c + 1)
  }

  /** Some entry extends `c`. */
  ghost predicate HasChild(d: Dict, c: nat) {
    exists e: nat :: e in d && e > BogusCode && d[e].up == c
  }

  /** Partial clearing keeps the single characters, and the entries that some entry extends. */
  ghost function PartialClear(d: Dict): Dict {
    map c | c in d && (c < BogusCode || HasChild(d, c)) :: d[c]
  }

  /** `Malformed` where the source leaves its arrays, or prints what happens to be in them: a code
      that is too large, a code without a string, no code left to assign, or more than 16 bits. */
  datatype Outcome = Malformed | Decoded(out: seq<Byte>)

  /** The string that is output for a code.  A code that stands for nothing, such as the one that
      is only just going to be assigned, is output as the last string and its own first
      character. */
  function Output(d: Dict, old_: nat, code: nat): (r: Option<seq<Byte>>)
    ensures r.Some? ==> 0 < |r.value|
  {
    if code in d then String(d, code)
    else match String(d, old_)
      case None => None
      case Some(s) => Some(s + [s[0]])
  }

  /** Decoding from position `p`, where `t` bytes have been taken: with codes of `size` bits and
      dictionary `d`; codes up to `last` are not searched for a free one, `old_` was the last code,
      `h` is the output. */
  ghost function Decode(input: seq<Byte>, p: nat, t: nat, size: nat, d: Dict, last: nat, old_: nat, h: seq<Byte>): Outcome
    requires t <= |input| && 0 < size <= MaxSize && last < HSize && (p <= 8 * t || t == |input|)
    decreases if p < BitLen(input) then BitLen(input) - p else 0
  {
    E.EndsWhen(|input|, p, t, size);
    var t1, q, code := E.TakenAfter(|input|, p, t, size), p + size, Peek(input, p, size);
    if E.Ends(|input|, p, t, size) then Decoded(h)
    else if code == BogusCode then
      E.EndsWhen(|input|, q, t1, size);
      var t2, q2, sub := E.TakenAfter(|input|, q, t1, size), q + size, Peek(input, q, size);
      if E.Ends(|input|, q, t1, size) then Decoded(h)
      else if sub == 1 then
        if size == MaxSize then Malformed else Decode(input, q2, t2, size + 1, d, last, old_, h)
      else if sub == 2 then Decode(input, q2, t2, size, PartialClear(d), BogusCode, old_, h)
      else Decode(input, q2, t2, size, d, last, old_, h)
    else
      var free := NextFree(d, last + 1);
      match Output(d, old_, code)
      case None => Malformed
      case Some(str) =>
        if code >= HSize || free == HSize then Malformed
        else Decode(input, q, t1, size, d[free := Entry(old_, str[0])], free, code, h + str)
  }

  /** The whole member: of the first code the low eight bits are output. */
  ghost function Unshrunk(input: seq<Byte>): Outcome {
    E.EndsWhen(|input|, 0, 0, 9);
    var first := Peek(input, 0, 9);
    if E.Ends(|input|, 0, 0, 9) then Decoded([])
    else Decode(input, 9, E.TakenAfter(|input|, 0, 0, 9), 9, Start(), BogusCode, first, [first % 256])
  }

  // ----- strings

  lemma {:induction false} StrAgree(d: Dict, c: nat, n: nat, m: nat)
    requires Str(d, c, n).Some? && Str(d, c, m).Some?
    ensures Str(d, c, n) == Str(d, c, m)
    decreases n
  {
    if d[c].up != BogusCode {
      StrAgree(d, d[c].up, n - 1, m - 1);
    }
  }

  lemma {:induction false} StrMore(d: Dict, c: nat, n: nat, m: nat)
    requires Str(d, c, n).Some? && |Str(d, c, n).value| <= m
    ensures Str(d, c, m) == Str(d, c, n)
    decreases n
  {
    if d[c].up != BogusCode {
      StrMore(d, d[c].up, n - 1, m - 1);
    }
  }

  /** Codes below `HSize`, none of them the escape code; the first ones are characters. */
  ghost predicate Sized(d: Dict) {
    forall c :: c in d ==> c < HSize && c != BogusCode && (c < BogusCode ==> d[c].up == BogusCode)
  }

  /** The codes on the way from `c` to its first character. */
  ghost function Way(d: Dict, c: nat, n: nat): (w: set<nat>)
    requires Str(d, c, n).Some?
    ensures c in w && w <= d.Keys
    decreases n
  {
    if d[c].up == BogusCode then {c} else Way(d, d[c].up, n - 1) + {c}
  }

  lemma {:induction false} WayShorter(d: Dict, c: nat, n: nat, x: nat) returns (m: nat)
    requires Str(d, c, n).Some? && x in Way(d, c, n)
    ensures Str(d, x, m).Some? && |Str(d, x, m).value| <= |Str(d, c, n).value|
    decreases n
  {
    if x == c {
      m := n;
    } else {
      m := WayShorter(d, d[c].up, n - 1, x);
    }
  }

  lemma {:induction false} WaySize(d: Dict, c: nat, n: nat)
    requires Str(d, c, n).Some?
    ensures |Way(d, c, n)| == |Str(d, c, n).value|
    decreases n
  {
    if d[c].up != BogusCode {
      var w := Way(d, d[c].up, n - 1);
      WaySize(d, d[c].up, n - 1);
      if c in w {
        var m := WayShorter(d, d[c].up, n - 1, c);
        StrAgree(d, c, n, m);
        assert false;
      }
    }
  }

  lemma {:induction false} Below(s: set<nat>, n: nat)
    requires forall x :: x in s ==> x < n
    ensures |s| <= n
    decreases n
  {
    if n > 0 {
      Below(s - {n - 1}, n - 1);
    } else {
      assert s == {};
    }
  }

  /** No string is as long as there are codes, whatever codes partial clearing has freed and used
      again. */
  lemma StringFits(d: Dict, c: nat, n: nat)
    requires Sized(d) && Str(d, c, n).Some?
    ensures |Str(d, c, n).value| < HSize && String(d, c) == Str(d, c, n)
  {
    WaySize(d, c, n);
    Below(Way(d, c, n) + {BogusCode}, HSize);
    StrMore(d, c, n, HSize);
  }

  // ----- codes without a string

  /** The code `i` steps up from `c`; where there is nothing to go up to, it stays. */
  function Above(d: Dict, c: nat, i: nat): nat
    decreases i
  {
    if i == 0 then c
    else
      var a := Above(d, c, i - 1);
      if a in d then d[a].up else a
  }

  /** The way up breaks off at a code that stands for nothing. */
  ghost predicate Broken(d: Dict, c: nat) {
    exists i: nat :: Above(d, c, i) != BogusCode && Above(d, c, i) !in d
  }

  /** The way up comes to a code a second time. */
  ghost predicate Circular(d: Dict, c: nat) {
    exists i: nat, j: nat :: i < j && Above(d, c, i) in d && Above(d, c, i) == Above(d, c, j)
  }

  lemma {:induction false} AboveUp(d: Dict, c: nat, i: nat)
    requires c in d
    ensures Above(d, c, i + 1) == Above(d, d[c].up, i)
    decreases i
  {
    if i > 0 {
      AboveUp(d, c, i - 1);
    } else {
      assert Above(d, c, 0) == c;
    }
  }

  lemma {:induction false} AboveEnd(d: Dict, i: nat)
    requires BogusCode !in d
    ensures Above(d, BogusCode, i) == BogusCode
    decreases i
  {
    if i > 0 {
      AboveEnd(d, i - 1);
    }
  }

  /** A string loses a character with every step up, until the first one. */
  lemma {:induction false} StrAbove(d: Dict, c: nat, n: nat, i: nat)
    requires BogusCode !in d && Str(d, c, n).Some?
    ensures var k, a := |Str(d, c, n).value|, Above(d, c, i);
            if i < k then Str(d, a, n - i).Some? && |Str(d, a, n - i).value| == k - i else a == BogusCode
    decreases i
  {
    if i > 0 {
      AboveUp(d, c, i - 1);
      if d[c].up == BogusCode {
        AboveEnd(d, i - 1);
      } else {
        StrAbove(d, d[c].up, n - 1, i - 1);
      }
    }
  }

  lemma {:induction false} StrOf(d: Dict, c: nat, i: nat)
    requires Above(d, c, i) == BogusCode && c != BogusCode && !Broken(d, c)
    ensures Str(d, c, i).Some?
    decreases i
  {
    assert Above(d, c, 0) == c;
    if i > 0 {
      AboveUp(d, c, i - 1);
      if d[c].up != BogusCode {
        forall j: nat ensures Above(d, d[c].up, j) == BogusCode || Above(d, d[c].up, j) in d {
          AboveUp(d, c, j);
          assert Above(d, c, j + 1) == BogusCode || Above(d, c, j + 1) in d;
        }
        StrOf(d, d[c].up, i - 1);
      }
    }
  }

  /** The first `n` codes on a way that never ends. */
  function Passed(d: Dict, c: nat, n: nat): set<nat>
    decreases n
  {
    if n == 0 then {} else Passed(d, c, n - 1) + {Above(d, c, n - 1)}
  }

  lemma {:induction false} PassedAt(d: Dict, c: nat, n: nat, x: nat) returns (i: nat)
    requires x in Passed(d, c, n)
    ensures i < n && Above(d, c, i) == x
    decreases n
  {
    hide Above;
    if x == Above(d, c, n - 1) {
      i := n - 1;
    } else {
      i := PassedAt(d, c, n - 1, x);
    }
  }

  lemma {:induction false} PassedSize(d: Dict, c: nat, n: nat)
    requires !Circular(d, c) && forall i: nat :: Above(d, c, i) in d
    ensures |Passed(d, c, n)| == n
    decreases n
  {
    hide Above, Circular;
    if n > 0 {
      PassedSize(d, c, n - 1);
      if Above(d, c, n - 1) in Passed(d, c, n - 1) {
        var i := PassedAt(d, c, n - 1, Above(d, c, n - 1));
        Again(d, c, i, n - 1);
      }
    }
  }

  lemma Again(d: Dict, c: nat, i: nat, j: nat)
    requires i < j && Above(d, c, i) in d && Above(d, c, i) == Above(d, c, j)
    ensures Circular(d, c)
  {
  }

  /** The way up from a code with a string leads to the escape code. */
  lemma WayEnds(d: Dict, c: nat)
    requires BogusCode !in d && String(d, c).Some?
    ensures !Broken(d, c) && !Circular(d, c)
  {
    hide Above, Str;
    forall i: nat ensures Above(d, c, i) == BogusCode || Above(d, c, i) in d {
      StrAbove(d, c, HSize, i);
    }
    forall i: nat, j: nat | i < j && Above(d, c, i) in d ensures Above(d, c, i) != Above(d, c, j) {
      StrAbove(d, c, HSize, i);
      StrAbove(d, c, HSize, j);
      if Above(d, c, i) == Above(d, c, j) {
        StrAgree(d, Above(d, c, i), HSize - i, HSize - j);
      }
    }
  }

  /** A way up that leads on for ever has to go round. */
  lemma Endless(d: Dict, c: nat)
    requires Sized(d) && forall i: nat :: Above(d, c, i) in d
    ensures Circular(d, c)
  {
    hide Above, Circular;
    if !Circular(d, c) {
      var w := Passed(d, c, HSize + 1);
      PassedSize(d, c, HSize + 1);
      forall x | x in w ensures x < HSize {
        var i := PassedAt(d, c, HSize + 1, x);
      }
      Below(w, HSize);
    }
  }

  /** A code other than the escape code has no string exactly if the way up from it breaks off or
      goes round in a circle. */
  lemma NoString(d: Dict, c: nat)
    requires Sized(d) && c != BogusCode
    ensures String(d, c).None? <==> Broken(d, c) || Circular(d, c)
  {
    hide Above, Str, Circular;
    if String(d, c).Some? {
      WayEnds(d, c);
    } else if !Broken(d, c) {
      if i: nat :| Above(d, c, i) == BogusCode {
        StrOf(d, c, i);
        StringFits(d, c, i);
      } else {
        Endless(d, c);
      }
    }
  }

  // ----- what the steps do to strings

  /** A new entry stands for the string it extends and one more character; it does not touch the
      strings there are.  After a partial clear it may extend a code that has been freed, or even
      itself, and then it stands for nothing. */
  lemma {:induction false} LeafKeeps(d: Dict, free: nat, old_: nat, ch: Byte, c: nat, n: nat)
    requires free !in d && Str(d, c, n).Some?
    ensures Str(d[free := Entry(old_, ch)], c, n) == Str(d, c, n)
    decreases n
  {
    if d[c].up != BogusCode {
      LeafKeeps(d, free, old_, ch, d[c].up, n - 1);
    }
  }

  lemma {:induction false} CircleNone(d: Dict, c: nat, n: nat)
    requires c in d && d[c].up == c != BogusCode
    ensures Str(d, c, n).None?
    decreases n
  {
    if n > 0 {
      CircleNone(d, c, n - 1);
    }
  }

  lemma NewLeaf(d: Dict, free: nat, old_: nat, ch: Byte)
    requires Sized(d) && free !in d && free != BogusCode && free < HSize
    ensures var d' := d[free := Entry(old_, ch)];
            && (forall c :: String(d, c).Some? ==> String(d', c) == String(d, c))
            && (String(d, old_).Some? ==> String(d', free) == Some(String(d, old_).value + [ch]))
            && (old_ == free ==> String(d', free).None?)
  {
    var d' := d[free := Entry(old_, ch)];
    forall c | String(d, c).Some? ensures String(d', c) == String(d, c) {
      LeafKeeps(d, free, old_, ch, c, HSize);
    }
    if String(d, old_).Some? {
      StringFits(d, old_, HSize);
      StrMore(d, old_, HSize, HSize - 1);
      LeafKeeps(d, free, old_, ch, old_, HSize - 1);
    }
    if old_ == free {
      CircleNone(d', free, HSize);
    }
  }

  /** The strings of the codes that partial clearing keeps are what they were. */
  lemma {:induction false} ClearKeeps(d: Dict, c: nat, n: nat)
    requires Sized(d) && Str(d, c, n).Some? && c in PartialClear(d)
    ensures Str(PartialClear(d), c, n) == Str(d, c, n)
    decreases n
  {
    if d[c].up != BogusCode {
      assert c > BogusCode ==> HasChild(d, d[c].up);
      ClearKeeps(d, d[c].up, n - 1);
    }
  }
}
