/** find_ecrec: the search for the end-of-central-directory record, block by block from the end
  of the zipfile. */
module FindEcrec {
  import opened Bits
  import opened ZipInput

  const PkErr: nat := 2
  // Section 4.3.16 of the APPNOTE: number of this disk, of the disk with the start of the directory,
  // of entries here and in all; size and offset of the directory; comment length.
  const EcrecSize: nat := 2 + 2 + 2 + 2 + 4 + 4 + 2
  const RecordSize: nat := 4 + EcrecSize    // with the signature

  function Max(a: int, b: int): int {
    if a < b then b else a
  }

  /** The signature of section 4.3.16 of the APPNOTE is at `q`. */
  predicate SigAt(v: seq<Byte>, q: int) {
    0 <= q && q + 4 <= |v| && v[q] == 0x50 && v[q + 1] == 0x4B && v[q + 2] == 5 && v[q + 3] == 6
  }

  // ----- what is searched

  function Tail(file: seq<Byte>): nat {
    |file| % InBufSiz
  }

  /** How many blocks before the tail. */
  function NumBlks(file: seq<Byte>, searchlen: nat): nat {
    (searchlen - Tail(file) + (InBufSiz - 1)) / InBufSiz
  }

  /** What the search looks at: the file; or, if the tail is too short to be read, the blocks
      before it, and what `hold` had in it before. */
  function View(file: seq<Byte>, hold: seq<Byte>): seq<Byte>
    requires |hold| == HoldSize
  {
    if |file| <= InBufSiz || Tail(file) > EcrecSize then file else file[..|file| - Tail(file)] + hold[..3]
  }

  function Lowest(file: seq<Byte>, searchlen: nat): int {
    if |file| <= InBufSiz then 0 else |file| - Tail(file) - NumBlks(file, searchlen) * InBufSiz
  }

  function Highest(file: seq<Byte>): int {
    if |file| <= InBufSiz then |file| - RecordSize
    else Max(|file| - RecordSize, |file| - Tail(file) - 1)
  }

  /** No signature from `lo` to `hi`. */
  ghost predicate NoSig(v: seq<Byte>, lo: int, hi: int) {
    forall q :: lo <= q <= hi ==> !SigAt(v, q)
  }

  /** `q` is the last signature from `lo` to `hi`. */
  ghost predicate LastSig(v: seq<Byte>, lo: int, hi: int, q: int) {
    lo <= q <= hi && SigAt(v, q) && NoSig(v, q + 1, hi)
  }

  // ----- one block

  /** The bytes of `hold` complete a signature exactly when the bytes of `v` at `top` do. */
  ghost predicate HoldFits(h: seq<Byte>, v: seq<Byte>, top: int) {
    && |h| >= 3 && 0 <= top && top + 3 <= |v|
    && (h[0] == 6 <==> v[top] == 6)
    && (h[0] == 5 && h[1] == 6 <==> v[top] == 5 && v[top + 1] == 6)
    && (h[0] == 0x4B && h[1] == 5 && h[2] == 6 <==> v[top] == 0x4B && v[top + 1] == 5 && v[top + 2] == 6)
  }

  /** A whole block in the buffer, with what follows it in `hold`. */
  lemma BlockSig(b: seq<Byte>, v: seq<Byte>, start: int, i: int)
    requires |b| == InBufSiz + HoldSize && 0 <= start && 0 <= i < InBufSiz
    requires start + InBufSiz + 3 <= |v| && b[..InBufSiz] == v[start..start + InBufSiz]
    requires HoldFits(b[InBufSiz..], v, start + InBufSiz)
    ensures SigAt(b, i) <==> SigAt(v, start + i)
  {
    var h := b[InBufSiz..];
    assert forall j :: 0 <= j < InBufSiz ==> b[j] == b[..InBufSiz][j] == v[start..start + InBufSiz][j] == v[start + j];
    assert h[0] == b[InBufSiz] && h[1] == b[InBufSiz + 1] && h[2] == b[InBufSiz + 2];
  }

  /** From `from` downwards; -1 if there is no signature. */
  method ScanBack(inbuf: array<Byte>, from: int) returns (i: int)
    requires inbuf.Length == InBufSiz + HoldSize && from < InBufSiz
    ensures -1 <= i && (i >= 0 ==> i <= from && SigAt(inbuf[..], i))
    ensures NoSig(inbuf[..], i + 1, from)
  {
    i := from;
    if i < -1 {
      i := -1;
    }
    while i >= 0
      invariant -1 <= i && (i == -1 || i <= from)
      invariant NoSig(inbuf[..], i + 1, from)
    {
      if inbuf[i] == 0x50 && inbuf[i + 1] == 0x4B && inbuf[i + 2] == 5 && inbuf[i + 3] == 6 {
        return;
      }
      i := i - 1;
    }
  }

  /** What `strncpy(hold, inbuf, 3)` leaves in `hold`: it stops at a zero byte and fills up with
      zeros. */
  function Held(b: seq<Byte>): (h: seq<Byte>)
    requires |b| == InBufSiz + HoldSize
    ensures |h| == HoldSize
  {
    [b[0], if b[0] == 0 then 0 else b[1], if b[0] == 0 || b[1] == 0 then 0 else b[2], b[InBufSiz + 3]]
  }

  /** `strncpy(hold, inbuf, 3)` */
  method CopyHold(inbuf: array<Byte>, ghost v: seq<Byte>, ghost top: int)
    requires inbuf.Length == InBufSiz + HoldSize && 0 <= top && top + 3 <= |v|
    requires inbuf[0] == v[top] && inbuf[1] == v[top + 1] && inbuf[2] == v[top + 2]
    modifies inbuf
    ensures inbuf[InBufSiz..] == Held(old(inbuf[..])) && HoldFits(inbuf[InBufSiz..], v, top)
    ensures inbuf[..InBufSiz] == old(inbuf[..InBufSiz])
  {
    ghost var h := Held(inbuf[..]);
    var i, ended := 0, false;
    while i < 3
      invariant 0 <= i <= 3
      invariant inbuf[..InBufSiz] == old(inbuf[..InBufSiz]) && inbuf[InBufSiz + 3] == old(inbuf[InBufSiz + 3])
      invariant ended <==> exists j :: 0 <= j < i && old(inbuf[j]) == 0
      invariant forall j :: 0 <= j < i ==> inbuf[InBufSiz + j] == h[j]
    {
      assert inbuf[i] == inbuf[..InBufSiz][i] == old(inbuf[..InBufSiz])[i];
      var c := inbuf[i];
      ended := ended || c == 0;
      inbuf[InBufSiz + i] := if ended then 0 else c;
      i := i + 1;
    }
    assert inbuf[InBufSiz..] == h;
  }

  /** The start of a short block, or of a short file, in the buffer. */
  lemma TailSig(b: seq<Byte>, file: seq<Byte>, start: int, i: int)
    requires 0 <= start <= |file| && |file| - start <= |b| && b[..|file| - start] == file[start..]
    requires 0 <= i && start + i + 4 <= |file|
    ensures SigAt(b, i) <==> SigAt(file, start + i)
  {
    assert forall j :: 0 <= j < |file| - start ==> b[j] == b[..|file| - start][j] == file[start..][j] == file[start + j];
  }

  lemma TailNone(b: seq<Byte>, file: seq<Byte>, start: int, i: int)
    requires 0 <= start <= |file| && |file| - start <= |b| && b[..|file| - start] == file[start..]
    requires -1 <= i && NoSig(b, i + 1, |file| - start - RecordSize)
    ensures NoSig(file, start + i + 1, |file| - RecordSize)
  {
    forall q | start + i + 1 <= q <= |file| - RecordSize ensures !SigAt(file, q) {
      TailSig(b, file, start, q - start);
      assert !SigAt(b, q - start);
    }
  }

  /** The short zipfile, or the short block at the end of a longer one, from `start` on. */
  method SearchTail(z: ZipInput, start: nat) returns (found: bool)
    requires z.inbuf.Length == InBufSiz + HoldSize && start <= |z.file| <= start + InBufSiz && start % InBufSiz == 0
    modifies z, z.inbuf
    ensures z.bufstart == start && z.fpos == |z.file| && z.inbuf[..|z.file| - start] == z.file[start..]
    ensures z.inbuf[InBufSiz..] == old(z.inbuf[InBufSiz..])
    ensures found ==> z.Seekable() && z.inptr < InBufSiz && LastSig(z.file, start, |z.file| - RecordSize, z.Pos())
    ensures !found ==> NoSig(z.file, start, |z.file| - RecordSize)
  {
    hide NoSig, SigAt;
    z.bufstart, z.fpos := start, start;
    z.incnt := z.Read(|z.file| - start);
    assert z.file[start..|z.file|] == z.file[start..];
    var i := ScanBack(z.inbuf, |z.file| - start - RecordSize);
    TailNone(z.inbuf[..], z.file, start, i);
    found := i >= 0;
    if found {
      TailSig(z.inbuf[..], z.file, start, i);
      z.inptr := i;
      z.incnt := z.incnt - i;
    }
  }

  /** The view of the file that the search has: blocks before `top`, and three bytes more. */
  ghost predicate Shows(v: seq<Byte>, file: seq<Byte>, top: int) {
    0 <= top <= |file| && top + 3 <= |v| && v[..top] == file[..top]
  }

  lemma BlockNone(b: seq<Byte>, v: seq<Byte>, start: int, i: int, hi: int)
    requires |b| == InBufSiz + HoldSize && 0 <= start && -1 <= i
    requires start + InBufSiz + 3 <= |v| && b[..InBufSiz] == v[start..start + InBufSiz]
    requires HoldFits(b[InBufSiz..], v, start + InBufSiz)
    requires NoSig(b, i + 1, InBufSiz - 1) && NoSig(v, start + InBufSiz, hi)
    ensures NoSig(v, start + i + 1, hi)
  {
    hide SigAt, HoldFits;
    forall q | start + i + 1 <= q <= hi ensures !SigAt(v, q) {
      if q < start + InBufSiz {
        BlockSig(b, v, start, q - start);
        assert !SigAt(b, q - start);
      }
    }
  }

  /** One block on the way back. */
  method SearchBlock(z: ZipInput, ghost v: seq<Byte>, ghost hi: int) returns (found: bool)
    requires z.inbuf.Length == InBufSiz + HoldSize && z.bufstart >= InBufSiz && z.bufstart % InBufSiz == 0
    requires Shows(v, z.file, z.bufstart) && HoldFits(z.inbuf[InBufSiz..], v, z.bufstart)
    requires NoSig(v, z.bufstart, hi) && z.bufstart - 1 <= hi
    modifies z, z.inbuf
    ensures z.bufstart == old(z.bufstart) - InBufSiz
    ensures Shows(v, z.file, z.bufstart) && HoldFits(z.inbuf[InBufSiz..], v, z.bufstart)
    ensures !found ==> NoSig(v, z.bufstart, hi)
    ensures found ==> z.Seekable() && 0 <= z.inptr < InBufSiz && LastSig(v, z.bufstart, hi, z.Pos())
  {
    hide NoSig, SigAt, HoldFits;
    z.bufstart := z.bufstart - InBufSiz;
    z.fpos := z.bufstart;
    ghost var start := z.bufstart;
    z.incnt := z.Read(InBufSiz);
    assert z.file[start..start + InBufSiz] == z.file[..start + InBufSiz][start..] == v[..start + InBufSiz][start..] == v[start..start + InBufSiz];
    assert v[..start] == v[..start + InBufSiz][..start] == z.file[..start];
    var i := ScanBack(z.inbuf, InBufSiz - 1);
    BlockNone(z.inbuf[..], v, start, i, hi);
    found := i >= 0;
    if found {
      BlockSig(z.inbuf[..], v, start, i);
      z.inptr := i;
      z.incnt := z.incnt - i;
    }
    First3(z.inbuf[..], v, start, InBufSiz);
    CopyHold(z.inbuf, v, start);
  }

  lemma First3(b: seq<Byte>, v: seq<Byte>, start: int, n: nat)
    requires 0 <= start && 3 <= n <= |b| && start + n <= |v| && b[..n] == v[start..start + n]
    ensures b[0] == v[start] && b[1] == v[start + 1] && b[2] == v[start + 2]
  {
    assert forall j :: 0 <= j < n ==> b[j] == b[..n][j] == v[start..start + n][j] == v[start + j];
  }

  lemma Blocks(file: seq<Byte>, searchlen: nat)
    requires searchlen <= |file|
    ensures var b := |file| - Tail(file);
            0 <= NumBlks(file, searchlen) * InBufSiz <= b && b % InBufSiz == 0 && Tail(file) < InBufSiz
    ensures NumBlks(file, searchlen) * InBufSiz >= searchlen - Tail(file)
  {
  }

  lemma ViewShows(file: seq<Byte>, hold: seq<Byte>)
    requires |file| > InBufSiz && |hold| == HoldSize
    ensures Shows(View(file, hold), file, |file| - Tail(file))
    ensures Tail(file) <= EcrecSize ==> HoldFits(hold, View(file, hold), |file| - Tail(file))
  {
    var v, b := View(file, hold), |file| - Tail(file);
    if Tail(file) <= EcrecSize {
      assert v[b] == hold[..3][0] && v[b + 1] == hold[..3][1] && v[b + 2] == hold[..3][2];
    }
  }

  /** The short block at the end of a longer zipfile, if it is not too short. */
  method SearchEnd(z: ZipInput) returns (found: bool)
    requires z.inbuf.Length == InBufSiz + HoldSize && |z.file| > InBufSiz
    modifies z, z.inbuf
    ensures var v := View(z.file, old(z.inbuf[InBufSiz..]));
            var top := |z.file| - Tail(z.file);
            && z.bufstart == top
            && Shows(v, z.file, top) && HoldFits(z.inbuf[InBufSiz..], v, top)
            && (!found ==> NoSig(v, top, Highest(z.file)))
            && (found ==> z.Seekable() && z.inptr < InBufSiz && LastSig(v, top, Highest(z.file), z.Pos()))
  {
    hide NoSig, SigAt, HoldFits, Shows;
    ghost var hold := z.inbuf[InBufSiz..];
    ghost var v, hi := View(z.file, hold), Highest(z.file);
    ViewShows(z.file, hold);
    var tail := Tail(z.file);
    var top := |z.file| - tail;
    NoSigEmpty(v, top, hi);
    found := false;
    if tail > EcrecSize {
      found := SearchTail(z, top);
      assert z.inbuf[..tail] == v[top..top + tail];
      First3(z.inbuf[..], v, top, tail);
      // the signature may span the block boundary
      CopyHold(z.inbuf, v, top);
    } else {
      z.bufstart := top;
    }
  }

  /** The search itself: the last signature of the stretch, if it has one at all.  The position is
      then that of the signature, ready to be read, and no seek is to before the file. */
  method Search(z: ZipInput, searchlen: nat) returns (found: bool)
    requires z.inbuf.Length == InBufSiz + HoldSize && searchlen <= |z.file|
    modifies z, z.inbuf
    ensures var v := View(z.file, old(z.inbuf[InBufSiz..]));
            var lo, hi := Lowest(z.file, searchlen), Highest(z.file);
            && lo >= 0
            && (!found ==> NoSig(v, lo, hi))
            && (found ==> z.Seekable() && z.inptr < InBufSiz && LastSig(v, lo, hi, z.Pos()))
  {
    hide NoSig, SigAt, HoldFits, Shows, LastSig, Tail, NumBlks;
    Blocks(z.file, searchlen);
    if |z.file| <= InBufSiz {
      found := SearchTail(z, 0);
    } else {
      hide View, Loaded;
      ghost var v := View(z.file, z.inbuf[InBufSiz..]);
      ghost var top, hi := |z.file| - Tail(z.file), Highest(z.file);
      found := SearchEnd(z);
      var i, numblks := 1, NumBlks(z.file, searchlen);
      ghost var lo := top - numblks * InBufSiz;
      LastLower(v, top, lo, hi, z.Pos());
      while !found && i <= numblks
        invariant z.inbuf.Length == InBufSiz + HoldSize && 1 <= i <= numblks + 1
        invariant !found ==> z.bufstart == top - (i - 1) * InBufSiz
        invariant !found ==> Shows(v, z.file, z.bufstart) && HoldFits(z.inbuf[InBufSiz..], v, z.bufstart)
        invariant !found ==> NoSig(v, z.bufstart, hi)
        invariant found ==> z.Seekable() && z.inptr < InBufSiz && LastSig(v, lo, hi, z.Pos())
      {
        found := SearchBlock(z, v, hi);
        LastLower(v, z.bufstart, lo, hi, z.Pos());
        i := i + 1;
      }
    }
  }

  lemma NoSigEmpty(v: seq<Byte>, lo: int, hi: int)
    ensures hi < lo ==> NoSig(v, lo, hi)
  {
  }

  lemma LastLower(v: seq<Byte>, lo: int, lo': int, hi: int, q: int)
    requires lo' <= lo
    ensures LastSig(v, lo, hi, q) ==> LastSig(v, lo', hi, q)
  {
  }

  /** `find_ecrec`, with the record read at the end, `hold` having some bytes in it from before.
      `n` of the record's bytes are there. */
  method FindEcrec(z: ZipInput, searchlen: nat, byterec: array<Byte>) returns (r: nat, offset: int, n: nat)
    requires z.inbuf.Length == InBufSiz + HoldSize && searchlen <= |z.file|
    requires byterec.Length == RecordSize && byterec != z.inbuf
    modifies z, z.inbuf, byterec
    ensures var v := View(z.file, old(z.inbuf[InBufSiz..]));
            var lo, hi := Lowest(z.file, searchlen), Highest(z.file);
            && r in {2, 51, 0}
            && (r == 2 ==> NoSig(v, lo, hi))
            && (r != 2 ==> LastSig(v, lo, hi, offset) && n == |Slice(z.file, offset, RecordSize)|)
            && (r == 51 <==> r != 2 && n == 0)
            && (r == 0 ==> byterec[..n] == Slice(z.file, offset, RecordSize))
    ensures forall p: nat :: SigAt(z.file, p) && |z.file| - searchlen <= p <= |z.file| - 22 ==> r != 2 && p <= offset
    ensures r != 2 ==> offset <= |z.file| - 22 || (|z.file| > 8192 && offset < |z.file| - |z.file| % 8192)
    ensures r != 2 ==> offset >= |z.file| - searchlen - 8192
  {
    hide NoSig, LastSig, Slice, View, Lowest, Highest, Loaded;
    n, offset := 0, 0;
    ghost var hold := z.inbuf[InBufSiz..];
    forall p: nat | SigAt(z.file, p) && |z.file| - searchlen <= p <= |z.file| - 22
      ensures !NoSig(View(z.file, hold), Lowest(z.file, searchlen), Highest(z.file))
      ensures forall q :: LastSig(View(z.file, hold), Lowest(z.file, searchlen), Highest(z.file), q) ==> p <= q
    {
      NeverMissed(z.file, hold, searchlen, p);
    }
    var found := Search(z, searchlen);
    if !found {
      return PkErr, offset, n;
    }
    offset := z.bufstart + z.inptr;  // real_ecrec_offset
    Stretch(z.file, searchlen);
    LastIs(View(z.file, old(z.inbuf[InBufSiz..])), Lowest(z.file, searchlen), Highest(z.file), offset);
    n := z.ReadBuf(byterec, RecordSize);
    r := if n == 0 then PkEof else PkCool;
  }

  /** What is searched, in numbers. */
  lemma Stretch(file: seq<Byte>, searchlen: nat)
    requires searchlen <= |file|
    ensures Highest(file) <= |file| - 22 || (|file| > 8192 && Highest(file) < |file| - |file| % 8192)
    ensures Lowest(file, searchlen) >= |file| - searchlen - 8192
  {
    Blocks(file, searchlen);
    var m := searchlen - Tail(file) + (InBufSiz - 1);
    assert NumBlks(file, searchlen) * InBufSiz <= m || m < 0;
  }

  lemma LastIs(v: seq<Byte>, lo: int, hi: int, q: int)
    requires LastSig(v, lo, hi, q)
    ensures lo <= q <= hi && q >= 0
  {
  }

  /** A record with a signature at `p`, within reach of the search and of a whole record from the
      end, is never passed by: something is found there or later. */
  lemma NeverMissed(file: seq<Byte>, hold: seq<Byte>, searchlen: nat, p: nat)
    requires |hold| == HoldSize && searchlen <= |file|
    requires SigAt(file, p) && |file| - searchlen <= p <= |file| - 22
    ensures var v, lo, hi := View(file, hold), Lowest(file, searchlen), Highest(file);
            && !NoSig(v, lo, hi)
            && forall q :: LastSig(v, lo, hi, q) ==> p <= q
  {
    var v, lo, hi := View(file, hold), Lowest(file, searchlen), Highest(file);
    Blocks(file, searchlen);
    assert lo <= p <= hi;
    assert SigAt(v, p) by {
      var top := |file| - Tail(file);
      assert v != file ==> v[..top] == file[..top];
      assert v != file ==> v[p] == v[..top][p] && v[p + 1] == v[..top][p + 1] && v[p + 2] == v[..top][p + 2] && v[p + 3] == v[..top][p + 3];
    }
  }

  /** What is found is a signature of the file, unless the tail was too short to be read and
      `hold` happened to complete the end of the last block. */
  lemma FoundIsReal(file: seq<Byte>, hold: seq<Byte>, lo: int, hi: int, q: int)
    requires |hold| == HoldSize && LastSig(View(file, hold), lo, hi, q)
    ensures SigAt(file, q) || (|file| > 8192 && |file| % 8192 <= 18 && q + 4 > |file| - |file| % 8192)
  {
    var v, top := View(file, hold), |file| - Tail(file);
    if v != file && q + 4 <= top {
      assert v[..top] == file[..top];
      assert v[q] == v[..top][q] && v[q + 1] == v[..top][q + 1] && v[q + 2] == v[..top][q + 2] && v[q + 3] == v[..top][q + 3];
    }
  }

  const Sig: seq<Byte> := [0x50, 0x4B, 5, 6]

  /** The last `k` bytes of the last whole block begin a signature that `hold` completes, but the
      file has none there. */
  predicate StaleAt(file: seq<Byte>, hold: seq<Byte>, top: nat, k: nat)
    requires |hold| == HoldSize && 1 <= k <= 3 && k <= top <= |file|
  {
    file[top - k..top] == Sig[..k] && hold[..4 - k] == Sig[k..] && !SigAt(file, top - k)
  }

  /** The tail is too short to be read, and one, two or three bytes at the end of the last whole
      block are so completed. */
  predicate Stale(file: seq<Byte>, hold: seq<Byte>)
    requires |hold| == HoldSize
  {
    && |file| > 8192 && |file| % 8192 <= 18
    && var top := |file| - |file| % 8192;
       StaleAt(file, hold, top, 1) || StaleAt(file, hold, top, 2) || StaleAt(file, hold, top, 3)
  }

  lemma StaleSig(file: seq<Byte>, hold: seq<Byte>, top: nat, k: nat)
    requires |hold| == HoldSize && 1 <= k <= 3 && k <= top <= |file|
    ensures StaleAt(file, hold, top, k) <==> SigAt(file[..top] + hold[..3], top - k) && !SigAt(file, top - k)
  {
    hide SigAt;
    var v := file[..top] + hold[..3];
    SigIs(v, top - k);
    assert v[top - k..top + 4 - k] == file[top - k..top] + hold[..4 - k];
    assert Sig == Sig[..k] + Sig[k..];
    var a, c := file[top - k..top], hold[..4 - k];
    assert a + c == Sig ==> (a + c)[..k] == a && (a + c)[k..] == c;
  }

  lemma SigIs(v: seq<Byte>, q: nat)
    requires q + 4 <= |v|
    ensures SigAt(v, q) <==> v[q..q + 4] == Sig
  {
    var w := v[q..q + 4];
    assert w[0] == v[q] && w[1] == v[q + 1] && w[2] == v[q + 2] && w[3] == v[q + 3];
  }

  lemma StaleWhen(file: seq<Byte>, hold: seq<Byte>, lo: int, hi: int, q: int)
    requires |hold| == HoldSize && hi <= Highest(file) && LastSig(View(file, hold), lo, hi, q) && !SigAt(file, q)
    ensures Stale(file, hold)
  {
    hide StaleAt, SigAt, NoSig;
    var top := |file| - Tail(file);
    FoundIsReal(file, hold, lo, hi, q);
    StaleSig(file, hold, top, top - q);
  }

  lemma StaleFound(file: seq<Byte>, hold: seq<Byte>, searchlen: nat) returns (q: int)
    requires |hold| == HoldSize && Stale(file, hold) && searchlen <= |file| && NumBlks(file, searchlen) > 0
    ensures LastSig(View(file, hold), Lowest(file, searchlen), Highest(file), q) && !SigAt(file, q)
  {
    hide StaleAt;
    var v, top := View(file, hold), |file| - Tail(file);
    var k := if StaleAt(file, hold, top, 1) then 1 else if StaleAt(file, hold, top, 2) then 2 else 3;
    StaleSig(file, hold, top, k);
    q := top - k;
    Blocks(file, searchlen);
    assert Highest(file) == top - 1;
    forall r | q + 1 <= r <= top - 1 ensures !SigAt(v, r) {
      assert r == q + 1 || r == q + 2 || r == q + 3;
    }
  }

  /** Exactly then something is found that is not there. */
  lemma StaleExactly(file: seq<Byte>, hold: seq<Byte>, searchlen: nat)
    requires |hold| == HoldSize && searchlen <= |file| && (|file| > InBufSiz ==> NumBlks(file, searchlen) > 0)
    ensures var v, lo, hi := View(file, hold), Lowest(file, searchlen), Highest(file);
            (exists q :: LastSig(v, lo, hi, q) && !SigAt(file, q)) <==> Stale(file, hold)
  {
    hide LastSig, SigAt, View, Lowest, Highest, StaleAt, NumBlks;
    var v, lo, hi := View(file, hold), Lowest(file, searchlen), Highest(file);
    if q :| LastSig(v, lo, hi, q) && !SigAt(file, q) {
      StaleWhen(file, hold, lo, hi, q);
    }
    if Stale(file, hold) {
      var q := StaleFound(file, hold, searchlen);
    }
  }

  /** One byte more than a block, with the first letter of a signature at the end of the block.  In
      `hold` is what an earlier search leaves there that has come to a block `b` which begins with
      the other three bytes. */
  lemma StaleExample(b: seq<Byte>)
    requires |b| == InBufSiz + HoldSize && b[..3] == [0x4B, 5, 6]
    ensures var file := seq(8193, i => if i == 8191 then 0x50 as Byte else 0);
            Stale(file, Held(b))
  {
    var file := seq(8193, i => if i == 8191 then 0x50 as Byte else 0);
    var h := Held(b);
    assert b[0] == b[..3][0] && b[1] == b[..3][1] && b[2] == b[..3][2];
    assert h[..3] == Sig[1..];
    assert file[InBufSiz - 1..InBufSiz] == Sig[..1];
    assert StaleAt(file, h, InBufSiz, 1);
  }

  /** The empty zipfile is nothing but the record: it is found, and read whole. */
  method EmptyZipfile() returns (r: nat, offset: int, n: nat, record: seq<Byte>)
    ensures r == 0 && offset == 0 && n == 22 && record == [0x50, 0x4B, 5, 6] + seq(18, _ => 0)
  {
    var zeros: seq<Byte> := seq(18, _ => 0);
    var file := [0x50, 0x4B, 5, 6] + zeros;
    var z := new ZipInput(file);
    var byterec := new Byte[22];
    assert SigAt(file, 0);
    r, offset, n := FindEcrec(z, 22, byterec);
    record := byterec[..n];
    assert Slice(file, 0, 22) == file;
  }
}
