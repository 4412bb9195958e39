/** flush: checksum and text conversion of the output, one buffer at a time. */
module Flush {
  import opened Wrappers
  import C = Crc32

  const LF: bv8 := 10
  const CR: bv8 := 13
  const CtrlZ: bv8 := 26

  /** The local end of line, and whether `^Z` is kept (DOS and its like). */
  datatype Platform = Platform(eol: seq<bv8>, keepCtrlZ: bool) {
    predicate Valid() {
      eol in {[13, 10], [10], [13]}
    }
  }

  // ----- what a text is converted to

  /** The first character and what it turns into; CR LF, a lone CR and a lone LF are one end of
      line each. */
  function Taken(s: seq<bv8>): (n: nat)
    requires s != []
    ensures 1 <= n <= |s| && n <= 2
  {
    if s[0] == CR && |s| > 1 && s[1] == LF then 2 else 1
  }

  function Turned(pl: Platform, b: bv8): seq<bv8> {
    if b == CR || b == LF then pl.eol
    else if b == CtrlZ && !pl.keepCtrlZ then []
    else [b]
  }

  /** The whole text in local form. */
  function Native(pl: Platform, s: seq<bv8>): seq<bv8>
    decreases |s|
  {
    if s == [] then [] else Turned(pl, s[0]) + Native(pl, s[Taken(s)..])
  }

  predicate EndsInCR(s: seq<bv8>) {
    s != [] && s[|s| - 1] == CR
  }

  /** What is left of `t` when the text before it was `s`. */
  function After(s: seq<bv8>, t: seq<bv8>): seq<bv8> {
    if EndsInCR(s) && t != [] && t[0] == LF then t[1..] else t
  }

  lemma NativeUnfold(pl: Platform, s: seq<bv8>)
    ensures Native(pl, s) == if s == [] then [] else Turned(pl, s[0]) + Native(pl, s[Taken(s)..])
  {
    hide Turned, Taken;
  }

  /** A text of one character and what follows. */
  lemma CutOne(s: seq<bv8>, t: seq<bv8>)
    requires |s| == 1
    ensures Taken(s) == 1 && (s + t)[Taken(s + t)..] == After(s, t)
  {
    if t != [] {
      assert (s + t)[1] == t[0];
    }
    assert (s + t)[1..] == t;
    if |s + t| > 1 {
      assert (s + t)[2..] == t[1..];
    }
  }

  lemma CutMore(s: seq<bv8>, t: seq<bv8>)
    requires |s| > 1
    ensures var n := Taken(s);
            Taken(s + t) == n && (s + t)[n..] == s[n..] + t && After(s[n..], t) == After(s, t)
  {
    var n := Taken(s);
    assert (s + t)[0] == s[0] && (s + t)[1] == s[1];
    assert n < |s| ==> s[n..][|s| - n - 1] == s[|s| - 1];
  }

  /** Where a text is cut does not matter, if a CR before the cut is remembered. */
  lemma {:induction false} NativeCut(pl: Platform, s: seq<bv8>, t: seq<bv8>)
    ensures Native(pl, s + t) == Native(pl, s) + Native(pl, After(s, t))
    decreases |s|
  {
    hide *;
    NativeUnfold(pl, s);
    NativeUnfold(pl, s + t);
    if s == [] {
      assert s + t == t;
      AfterNothing(t);
    } else {
      assert (s + t)[0] == s[0];
      if |s| == 1 {
        CutOne(s, t);
        NativeUnfold(pl, s[1..]);
      } else {
        CutMore(s, t);
        NativeCut(pl, s[Taken(s)..], t);
      }
    }
  }

  lemma AfterNothing(t: seq<bv8>)
    ensures After([], t) == t
  {
  }

  lemma {:induction false} NativeSize(pl: Platform, s: seq<bv8>)
    requires pl.Valid()
    ensures |Native(pl, s)| <= |pl.eol| * |s|
    decreases |s|
  {
    if s != [] {
      NativeSize(pl, s[Taken(s)..]);
    }
  }

  /** Converting a second time changes nothing. */
  lemma {:induction false} NativeTwice(pl: Platform, s: seq<bv8>)
    requires pl.Valid()
    ensures Native(pl, Native(pl, s)) == Native(pl, s)
    decreases |s|
  {
    if s != [] {
      var u, r := Turned(pl, s[0]), Native(pl, s[Taken(s)..]);
      NativeTwice(pl, s[Taken(s)..]);
      if u != [] {
        if pl.eol == [CR] {
          NoLF(pl, s[Taken(s)..]);
        }
        assert (u + r)[|u|..] == r;
      } else {
        assert u + r == r;
      }
    }
  }

  lemma {:induction false} NoLF(pl: Platform, s: seq<bv8>)
    requires pl.eol == [CR]
    ensures LF !in Native(pl, s)
    decreases |s|
  {
    if s != [] {
      NoLF(pl, s[Taken(s)..]);
    }
  }

  // ----- a text line by line

  /** The characters of a line that are kept. */
  function Kept(pl: Platform, line: seq<bv8>): seq<bv8> {
    if line == [] then []
    else (if line[0] == 26 && !pl.keepCtrlZ then [] else [line[0]]) + Kept(pl, line[1..])
  }

  predicate IsLine(line: seq<bv8>) {
    forall i :: 0 <= i < |line| ==> line[i] != 10 && line[i] != 13
  }

  /** Lines with their ends, and a last one without. */
  function Spelled(lines: seq<(seq<bv8>, seq<bv8>)>, last: seq<bv8>): seq<bv8> {
    if lines == [] then last else lines[0].0 + (lines[0].1 + Spelled(lines[1..], last))
  }

  function Respelled(pl: Platform, lines: seq<(seq<bv8>, seq<bv8>)>, last: seq<bv8>): seq<bv8> {
    if lines == [] then Kept(pl, last) else Kept(pl, lines[0].0) + (pl.eol + Respelled(pl, lines[1..], last))
  }

  /** Any of the three ends; a CR and a LF with nothing between are one. */
  predicate LinesOk(lines: seq<(seq<bv8>, seq<bv8>)>) {
    && (forall i :: 0 <= i < |lines| ==> IsLine(lines[i].0) && lines[i].1 in {[13, 10], [10], [13]})
    && (forall i :: 0 <= i < |lines| - 1 ==> !(lines[i].1 == [13] && lines[i + 1] == ([], [10])))
  }

  lemma {:induction false} NativeKept(pl: Platform, line: seq<bv8>, rest: seq<bv8>)
    requires IsLine(line)
    ensures Native(pl, line + rest) == Kept(pl, line) + Native(pl, rest)
    decreases |line|
  {
    hide Native;
    if line == [] {
      assert line + rest == rest;
    } else {
      NativeUnfold(pl, line + rest);
      assert (line + rest)[1..] == line[1..] + rest;
      NativeKept(pl, line[1..], rest);
    }
  }

  lemma NativeEnd(pl: Platform, end: seq<bv8>, rest: seq<bv8>)
    requires end in {[13, 10], [10], [13]} && (end == [13] && rest != [] ==> rest[0] != 10)
    ensures Native(pl, end + rest) == pl.eol + Native(pl, rest)
  {
    hide Native;
    NativeUnfold(pl, end + rest);
    assert (end + rest)[|end|..] == rest;
  }

  lemma SpelledFirst(lines: seq<(seq<bv8>, seq<bv8>)>, last: seq<bv8>)
    requires LinesOk(lines) && IsLine(last) && Spelled(lines, last) != [] && Spelled(lines, last)[0] == 10
    ensures lines != [] && lines[0] == ([], [10])
  {
  }

  /** Every line is kept as it is, but for `^Z`, and every end becomes the local one. */
  lemma {:induction false} NativeLines(pl: Platform, lines: seq<(seq<bv8>, seq<bv8>)>, last: seq<bv8>)
    requires LinesOk(lines) && IsLine(last)
    ensures Native(pl, Spelled(lines, last)) == Respelled(pl, lines, last)
    decreases |lines|
  {
    hide Native, Kept;
    if lines == [] {
      NativeKept(pl, last, []);
      NativeUnfold(pl, []);
      assert last + [] == last && Kept(pl, last) + [] == Kept(pl, last);
    } else {
      var rest := Spelled(lines[1..], last);
      LinesRest(lines);
      if rest != [] && rest[0] == 10 {
        SpelledFirst(lines[1..], last);
      }
      NativeKept(pl, lines[0].0, lines[0].1 + rest);
      NativeEnd(pl, lines[0].1, rest);
      NativeLines(pl, lines[1..], last);
    }
  }

  lemma LinesRest(lines: seq<(seq<bv8>, seq<bv8>)>)
    requires LinesOk(lines) && lines != []
    ensures LinesOk(lines[1..]) && IsLine(lines[0].0) && lines[0].1 in {[13, 10], [10], [13]}
    ensures |lines| > 1 ==> lines[1..][0] == lines[1] && !(lines[0].1 == [13] && lines[1] == ([], [10]))
  {
    hide IsLine;
    var r := lines[1..];
    assert forall i :: 0 <= i < |r| ==> r[i] == lines[i + 1];
  }

  /** Without ends of lines and `^Z`, a text is left alone. */
  lemma {:induction false} PlainText(pl: Platform, s: seq<bv8>)
    requires forall i :: 0 <= i < |s| ==> s[i] !in {10, 13, 26}
    ensures Native(pl, s) == s
    decreases |s|
  {
    if s != [] {
      PlainText(pl, s[1..]);
      assert [s[0]] + s[1..] == s;
    }
  }

  // ----- the conversion of one buffer

  /** `PutNativeEOL` */
  method PutNativeEOL(pl: Platform, transbuf: array<bv8>, q: nat) returns (q': nat)
    requires pl.Valid() && q + |pl.eol| <= transbuf.Length
    modifies transbuf
    ensures q' == q + |pl.eol| && transbuf[..q'] == old(transbuf[..q]) + pl.eol
  {
    transbuf[q] := pl.eol[0];
    if |pl.eol| == 2 {
      transbuf[q + 1] := pl.eol[1];
    }
    q' := q + |pl.eol|;
  }

  /** One character, by what comes next in the buffer. */
  lemma Next(pl: Platform, b: seq<bv8>, p: nat)
    requires p < |b|
    ensures var n := if b[p] == CR && p + 1 < |b| && b[p + 1] == LF then 2 else 1;
            Native(pl, b[p..]) == Turned(pl, b[p]) + Native(pl, b[p + n..])
  {
    hide Turned;
    var s := b[p..];
    assert s[Taken(s)..] == b[p + Taken(s)..];
  }

  lemma Room(a: nat, p: nat, n: nat, size: nat, q: nat)
    requires q <= a * p && p < size && 1 <= n
    ensures q + a <= a * size && q + a <= a * (p + n) && q <= a * (p + n)
  {
    Scale(a, p + 1, size);
    Scale(a, p + 1, p + n);
    assert a * (p + 1) == a * p + a;
  }

  lemma Scale(a: nat, x: nat, y: nat)
    requires x <= y
    ensures a * x <= a * y
  {
  }

  /** The turn of the conversion loop at `p`; `last` if it used up a CR at the end. */
  method ConvertOne(pl: Platform, rawbuf: seq<bv8>, p: nat, transbuf: array<bv8>, q: nat) returns (p': nat, q': nat, last: bool)
    requires pl.Valid() && p < |rawbuf| && q + |pl.eol| <= transbuf.Length
    modifies transbuf
    ensures p < p' <= |rawbuf| && q <= q' <= q + |pl.eol|
    ensures Native(pl, rawbuf[p..]) == Turned(pl, rawbuf[p]) + Native(pl, rawbuf[p'..])
    ensures transbuf[..q'] == old(transbuf[..q]) + Turned(pl, rawbuf[p])
    ensures if p' < |rawbuf| then !last else last <==> EndsInCR(rawbuf)
  {
    hide Native;
    Next(pl, rawbuf, p);
    p', q', last := p, q, false;
    if rawbuf[p] == CR {                // lone CR or CR/LF: EOL either way
      q' := PutNativeEOL(pl, transbuf, q);
      if p == |rawbuf| - 1 {
        last := true;
      } else if rawbuf[p + 1] == LF {   // the LF belongs to it
        p' := p + 1;
      }
    } else if rawbuf[p] == LF {         // lone LF
      q' := PutNativeEOL(pl, transbuf, q);
    } else if pl.keepCtrlZ || rawbuf[p] != CtrlZ {
      transbuf[q] := rawbuf[p];
      q' := q + 1;
    }
    p' := p' + 1;
  }

  /** Convert `rawbuf[start..]` into `transbuf`; `last` says whether it ends in a CR. */
  method Convert(pl: Platform, rawbuf: seq<bv8>, start: nat, transbuf: array<bv8>) returns (q: nat, last: bool)
    requires pl.Valid() && start <= |rawbuf| && (start == |rawbuf| ==> !EndsInCR(rawbuf))
    requires |pl.eol| * |rawbuf| <= transbuf.Length
    modifies transbuf
    ensures q <= transbuf.Length && transbuf[..q] == Native(pl, rawbuf[start..]) && (last <==> EndsInCR(rawbuf))
  {
    hide Native, EndsInCR, Turned, Platform.Valid;
    last, q := false, 0;
    var p, size := start, |rawbuf|;
    Scale(|pl.eol|, 0, p);
    while p < size
      invariant start <= p <= size && q <= |pl.eol| * p && q <= transbuf.Length
      invariant if p < size then !last else last <==> EndsInCR(rawbuf)
      invariant transbuf[..q] + Native(pl, rawbuf[p..]) == Native(pl, rawbuf[start..])
    {
      Room(|pl.eol|, p, 1, size, q);
      ghost var p0 := p;
      p, q, last := ConvertOne(pl, rawbuf, p, transbuf, q);
      Scale(|pl.eol|, p0 + 1, p);
    }
    assert rawbuf[p..] == [];
    NativeUnfold(pl, rawbuf[p..]);
  }

  lemma EndOf(a: seq<bv8>, b: seq<bv8>)
    requires b != []
    ensures EndsInCR(a + b) <==> EndsInCR(b)
  {
  }

  /** What is written for a member whose bytes so far were `raw`. */
  function Written(pl: Platform, textmode: bool, tflag: bool, raw: seq<bv8>): seq<bv8> {
    if tflag then [] else if textmode then Native(pl, raw) else raw
  }

  /** The output of one member. */
  class Output {
    const pl: Platform
    const textmode: bool
    const tflag: bool             // only testing
    const table: C.CrcTable
    const transbuf: array<bv8>
    var crc32val: C.Word
    var newfile: bool
    var didCRlast: bool
    var outfile: seq<bv8>
    ghost var raw: seq<bv8>       // everything handed to flush

    ghost predicate Valid()
      reads this, table, table.entries
    {
      && pl.Valid() && table.Valid() && table.entries as object != transbuf as object
      && crc32val == C.Crc(0, raw)
      && Stored(raw)
    }

    ghost predicate Stored(s: seq<bv8>)
      reads this
    {
      && outfile == Written(pl, textmode, tflag, s)
      && (textmode && !tflag ==> if newfile then s == [] else didCRlast <==> EndsInCR(s))
    }

    /** `didCRlast` is left over from the last member. */
    constructor (pl: Platform, textmode: bool, tflag: bool, transbufsiz: nat, left: bool)
      requires pl.Valid()
      ensures Valid() && raw == [] && transbuf.Length == transbufsiz
      ensures this.pl == pl && this.textmode == textmode && this.tflag == tflag
      ensures fresh(transbuf) && fresh(table) && fresh(table.entries)
    {
      this.pl, this.textmode, this.tflag := pl, textmode, tflag;
      table := new C.CrcTable();
      transbuf := new bv8[transbufsiz];
      crc32val, newfile, didCRlast, outfile, raw := 0, true, left, [], [];
      new;
      CrcNothing();
    }

    /** The conversion, after text `was`. */
    method FlushText(rawbuf: seq<bv8>, ghost was: seq<bv8>)
      requires pl.Valid() && rawbuf != [] && |pl.eol| * |rawbuf| <= transbuf.Length
      requires if newfile then was == [] else didCRlast <==> EndsInCR(was)
      modifies this`newfile, this`didCRlast, this`outfile, transbuf
      ensures outfile == old(outfile) + Native(pl, After(was, rawbuf))
      ensures !newfile && (didCRlast <==> EndsInCR(rawbuf))
    {
      hide Native, EndsInCR, After;
      if newfile {
        didCRlast, newfile := false, false;
        NoCR();
      }
      var p := 0;
      if rawbuf[p] == LF && didCRlast {
        p := p + 1;
      }
      AfterIs(was, rawbuf, p);
      var q: nat;
      q, didCRlast := Convert(pl, rawbuf, p, transbuf);
      if q > 0 {
        outfile := outfile + transbuf[..q];
      }
    }

    /** Write it, converted or not. */
    method Store(rawbuf: seq<bv8>, ghost was: seq<bv8>)
      requires pl.Valid() && Stored(was) && |pl.eol| * |rawbuf| <= transbuf.Length
      modifies this`newfile, this`didCRlast, this`outfile, transbuf
      ensures Stored(was + rawbuf)
    {
      hide Native, EndsInCR, After;
      if tflag || rawbuf == [] {
        assert rawbuf == [] ==> was + rawbuf == was;
        return;
      }
      EndOf(was, rawbuf);
      if !textmode {
        outfile := outfile + rawbuf;
      } else {
        NativeCut(pl, was, rawbuf);
        FlushText(rawbuf, was);
      }
    }

    /** `flush`: whatever buffers the output comes in, the checksum is that of all of it, and what
        is written is all of it converted. */
    method Flush(rawbuf: seq<bv8>)
      requires Valid() && |pl.eol| * |rawbuf| <= transbuf.Length
      modifies this, transbuf, table, table.entries
      ensures Valid() && raw == old(raw) + rawbuf
      ensures crc32val == C.Crc(0, old(raw) + rawbuf)
      ensures outfile == if tflag then [] else if textmode then Native(pl, old(raw) + rawbuf) else old(raw) + rawbuf
    {
      hide Native, C.Crc, EndsInCR, After, C.FilledTo;
      C.CrcAppend(0, raw, rawbuf);
      crc32val := table.Crc32(crc32val, Some(rawbuf));
      Store(rawbuf, raw);
      raw := raw + rawbuf;
    }
  }

  lemma CrcNothing()
    ensures C.Crc(0, []) == 0
  {
    hide C.Xor;
    C.XorTwice(0, C.Ones);
  }

  lemma NoCR()
    ensures !EndsInCR([])
  {
  }

  lemma AfterIs(s: seq<bv8>, t: seq<bv8>, p: nat)
    requires t != [] && p == if EndsInCR(s) && t[0] == LF then 1 else 0
    ensures After(s, t) == t[p..]
    ensures p == |t| ==> !EndsInCR(t)
  {
  }
}
