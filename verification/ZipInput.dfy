/** The buffered zipfile: readbuf, NEXTBYTE and readbyte, ZLSEEK, and the two calls that
  bracket the bytes of one member. */
module ZipInput {
  import opened Wrappers
  import opened Bits
  import opened OutBuf

  const InBufSiz: nat := 8192
  const HoldSize: nat := 4    // `hold` lies right behind the input buffer

  const PkCool: nat := 0
  const PkBadErr: nat := 3
  const PkEof: nat := 51

  function Min(a: int, b: int): int {
    if a < b then a else b
  }

  function Positive(a: int): int {
    if a < 0 then 0 else a
  }

  /** The bytes of the file from `p` on, at most `n`. */
  function Slice(file: seq<Byte>, p: nat, n: nat): seq<Byte> {
    if p >= |file| then [] else file[p..Min(p + n, |file|)]
  }

  /** The buffer holds the file from `start`, a block boundary, up to the file position; less
      than a whole block only at the end of the file. */
  ghost predicate Loaded(file: seq<Byte>, buf: seq<Byte>, start: int, fpos: int) {
    && |buf| == InBufSiz + HoldSize
    && 0 <= start <= fpos <= |file| && start % InBufSiz == 0
    && (fpos == start + InBufSiz || (fpos < start + InBufSiz && fpos == |file|))
    && buf[..fpos - start] == file[start..fpos]
  }

  class ZipInput {
    const file: seq<Byte>
    const inbuf: array<Byte>
    var fpos: nat            // where the next read() starts
    var bufstart: int        // cur_zipfile_bufstart
    var inptr: int           // an index into inbuf
    var incnt: int
    var csize: int
    var inptrLeftover: int
    var incntLeftover: int

    ghost predicate Buffered()
      reads this, inbuf
    {
      inbuf.Length == InBufSiz + HoldSize && Loaded(file, inbuf[..], bufstart, fpos) && inptr >= 0
    }

    /** Position of the next byte. */
    ghost function Pos(): int
      reads this
    {
      bufstart + inptr
    }

    /** What ZLSEEK relies on: the count of bytes left agrees with the position, even if that is
        past the end of the file. */
    ghost predicate Seekable()
      reads this, inbuf
    {
      Buffered() && Pos() + incnt == fpos
    }

    /** What readbuf relies on. */
    ghost predicate Ready()
      reads this, inbuf
    {
      && Buffered() && inptr <= InBufSiz
      && (Pos() + incnt == fpos || (fpos == |file| <= Pos() && incnt <= 0))
    }

    /** In a member that ends at `end`.  Bytes of the buffer that lie behind it are set aside. */
    ghost predicate InMember(end: int)
      reads this, inbuf
    {
      && Buffered() && incnt >= 0 && inptr <= InBufSiz
      && Pos() + incnt + Positive(csize) == end
      && (csize < 0 ==> incnt == 0)
      && (if incntLeftover > 0 then
            csize <= 0 && inptrLeftover == inptr + incnt && incntLeftover == fpos - end
          else incntLeftover == 0 && Pos() + incnt == fpos)
    }

    /** An open file, nothing read. */
    constructor (file: seq<Byte>)
      ensures fresh(inbuf) && inbuf.Length == InBufSiz + HoldSize && this.file == file
      ensures fpos == 0 && bufstart == 0 && inptr == 0 && incnt == 0
    {
      this.file := file;
      inbuf := new Byte[InBufSiz + HoldSize];
      fpos, bufstart, inptr, incnt, csize, inptrLeftover, incntLeftover := 0, 0, 0, 0, 0, 0, 0;
    }

    /** `read(zipfd, inbuf, size)` */
    method Read(size: nat) returns (count: nat)
      requires inbuf.Length == InBufSiz + HoldSize && size <= InBufSiz
      modifies this`fpos, inbuf
      ensures count == |Slice(file, old(fpos), size)| && fpos == old(fpos) + count
      ensures inbuf[..count] == Slice(file, old(fpos), size)
      ensures inbuf[InBufSiz..] == old(inbuf[InBufSiz..])
      ensures count == 0 ==> inbuf[..] == old(inbuf[..])
    {
      count := if fpos >= |file| then 0 else Min(size, |file| - fpos);
      var i := 0;
      while i < count
        invariant 0 <= i <= count && fpos == old(fpos)
        invariant inbuf[..i] == Slice(file, fpos, size)[..i]
        invariant inbuf[InBufSiz..] == old(inbuf[InBufSiz..])
        invariant i == 0 ==> inbuf[..] == old(inbuf[..])
      {
        inbuf[i] := file[fpos + i];
        i := i + 1;
      }
      fpos := fpos + count;
    }

    /** The next block, when the buffer is used up. */
    method Refill() returns (more: bool)
      requires Buffered() && inptr <= InBufSiz && fpos <= Pos()
      modifies this`fpos, this`incnt, this`bufstart, this`inptr, inbuf
      ensures Buffered() && Pos() == old(Pos()) && fpos >= old(fpos)
      ensures more <==> old(fpos) < |file|
      ensures more ==> incnt > 0 && Pos() + incnt == fpos && old(fpos) == Pos()
      ensures !more ==> incnt == 0 && fpos == old(fpos) && inptr == old(inptr)
    {
      incnt := Read(InBufSiz);
      if incnt == 0 {
        return false;
      }
      bufstart := bufstart + InBufSiz;  // the buffer always starts on a block boundary
      inptr := 0;
      return true;
    }

    /** One turn of readbuf's loop; `more` is false at the end of the file. */
    method ReadSome(buf: array<Byte>, n: nat, size: nat) returns (n': nat, more: bool)
      requires Ready() && n < size <= buf.Length && buf != inbuf
      modifies this`fpos, this`incnt, this`bufstart, this`inptr, inbuf, buf
      ensures Ready() && n <= n' <= size && Pos() == old(Pos()) + n' - n
      ensures more ==> n < n' && 0 <= old(Pos()) && Pos() <= |file|
      ensures more ==> buf[..n'] == old(buf[..n]) + file[old(Pos())..Pos()]
      ensures !more ==> n' == n && buf[..] == old(buf[..]) && Pos() >= |file|
      ensures old(Seekable()) && (more || old(Pos()) <= |file|) ==> Seekable()
      ensures !more && Pos() > |file| ==> !Seekable()
    {
      hide Loaded;
      more, n' := true, n;
      if incnt <= 0 {
        more := Refill();
      }
      Bounds();
      if more {
        var count := Min(size - n, incnt);
        Chunk(buf, n, count);
        n', inptr, incnt := n + count, inptr + count, incnt - count;
      }
    }

    /** `readbuf`: what a plain read at this position would give.  Afterwards the count agrees with
        the position unless one had sought past the end of the file. */
    method ReadBuf(buf: array<Byte>, size: nat) returns (n: nat)
      requires Ready() && size <= buf.Length && buf != inbuf
      modifies this`fpos, this`incnt, this`bufstart, this`inptr, inbuf, buf
      ensures Ready() && n == |Slice(file, old(Pos()), size)| && Pos() == old(Pos()) + n
      ensures buf[..n] == Slice(file, old(Pos()), size)
      ensures old(Seekable()) ==> (Seekable() <==> size == 0 || old(Pos()) <= |file|)
    {
      hide Loaded, SliceOf, Slice, Ready, Seekable;
      ReadyPos();
      ghost var p := Pos();
      n := 0;
      SliceNone(file, p);
      var more := true;
      while n < size && more
        invariant Ready() && n <= size && Pos() == p + n
        invariant n > 0 ==> Pos() <= |file|
        invariant buf[..n] == SliceOf(file, p, n)
        invariant old(Seekable()) && (more || p <= |file|) ==> Seekable()
        invariant !more ==> n < size && Pos() >= |file| && (Pos() > |file| ==> !Seekable())
        decreases size - n, more
      {
        ghost var n0 := n;
        n, more := ReadSome(buf, n, size);
        SliceCat(file, p, n0, n - n0);
      }
      SliceAll(file, p, n, size);
    }

    lemma ReadyPos()
      requires Ready()
      ensures Pos() >= 0
    {
    }

    lemma Bounds()
      requires Buffered()
      ensures 0 <= bufstart <= fpos <= |file| && fpos <= bufstart + InBufSiz
    {
    }

    /** `memcpy(buf, inptr, count)` */
    method Chunk(buf: array<Byte>, n: nat, count: nat)
      requires Buffered() && inptr <= InBufSiz && buf != inbuf && n + count <= buf.Length && Pos() + count <= fpos
      modifies buf
      ensures buf[..n + count] == old(buf[..n]) + file[Pos()..Pos() + count]
    {
      var i := 0;
      while i < count
        invariant 0 <= i <= count
        invariant buf[..n + i] == old(buf[..n]) + file[Pos()..Pos() + i]
        invariant inbuf[..] == old(inbuf[..])
      {
        At(file, inbuf[..], bufstart, fpos, inptr + i);
        buf[n + i] := inbuf[inptr + i];
        i := i + 1;
      }
    }

    /** `ZLSEEK`: afterwards the next byte is the one asked for.  The count of bytes left is right
        exactly if it was right before, or another block had to be read. */
    method ZlSeek(absOffset: int, extraBytes: int) returns (r: nat)
      requires Buffered()
      modifies this`fpos, this`incnt, this`bufstart, this`inptr, inbuf
      ensures r == 0 ==> Buffered() && inptr < InBufSiz && Pos() == absOffset + extraBytes
      ensures r == 0 ==> (Seekable() <==> old(Seekable()) || bufstart != old(bufstart))
      ensures r == 3 <==> absOffset + extraBytes < 0
      ensures r == 3 ==> fpos == old(fpos) && incnt == old(incnt) && inptr == old(inptr) && bufstart == old(bufstart)
      ensures r == 51 <==>
                var start := absOffset + extraBytes - (absOffset + extraBytes) % InBufSiz;
                absOffset + extraBytes >= 0 && start != old(bufstart) && start >= |file|
      ensures r in {0, 3, 51}
    {
      var request := absOffset + extraBytes;
      if request < 0 {
        return PkBadErr;
      }
      hide Loaded;
      var inbufOffset := request % InBufSiz;
      var start := request - inbufOffset;
      BlockStart(request);
      if start != bufstart {
        bufstart, fpos := start, start;  // lseek
        incnt := Read(InBufSiz);
        LoadedBlock(file, inbuf[..], start);
        if incnt == 0 {
          return PkEof;
        }
        inptr := inbufOffset;
        incnt := incnt - inbufOffset;
      } else {
        incnt := incnt + inptr - inbufOffset;
        inptr := inbufOffset;
      }
      r := PkCool;
    }

    /** `defer_leftover_input`: what lies behind the member is set aside. */
    method DeferLeftoverInput()
      requires Seekable() && incnt >= 0 && inptr <= InBufSiz
      modifies this`incnt, this`csize, this`inptrLeftover, this`incntLeftover
      ensures InMember(old(Pos()) + Positive(old(csize))) && csize >= 0
      ensures old(incnt) > 0 && old(csize) > 0 ==> 0 < incnt <= fpos - Pos()
    {
      if incnt > csize {
        if csize < 0 {
          csize := 0;
        }
        inptrLeftover := inptr + csize;
        incntLeftover := incnt - csize;
        incnt := csize;
      } else {
        incntLeftover := 0;
      }
      csize := csize - incnt;
    }

    /** `readbyte`, with the buffer used up: -1 for EOF. */
    method ReadByte(ghost end: int) returns (c: int)
      requires InMember(end) && incnt == 0
      modifies this`fpos, this`incnt, this`bufstart, this`inptr, this`csize, this`inptrLeftover, this`incntLeftover, inbuf
      ensures InMember(end)
      ensures if old(Pos()) < end && old(Pos()) < |file| then c == file[old(Pos())] && Pos() == old(Pos()) + 1
              else c == -1 && Pos() == old(Pos())
      ensures if c == -1 then csize == old(csize) - 1 || old(csize) > 0 else csize >= 0 && inptr > 0
      ensures old(Pos()) == end ==> fpos == old(fpos) && inptr == old(inptr)
    {
      hide Loaded;
      Bounds();
      if csize <= 0 {
        csize := csize - 1;  // for tests done after exploding
        incnt := 0;
        return -1;
      }
      var more := Refill();
      if !more {
        return -1;
      }
      Bounds();
      DeferLeftoverInput();  // decrements csize
      Bounds();
      At(file, inbuf[..], bufstart, fpos, inptr);
      incnt := incnt - 1;
      c := inbuf[inptr];
      inptr := inptr + 1;
    }

    /** `NEXTBYTE`: within the member the bytes of the file, one after the other; then EOF, which
        `csize` counts. */
    method NextByte(ghost end: int) returns (c: int)
      requires InMember(end)
      modifies this`fpos, this`incnt, this`bufstart, this`inptr, this`csize, this`inptrLeftover, this`incntLeftover, inbuf
      ensures InMember(end)
      ensures if old(Pos()) < end && old(Pos()) < |file| then c == file[old(Pos())] && Pos() == old(Pos()) + 1
              else c == -1 && Pos() == old(Pos())
      ensures c == -1 && old(Pos()) == end ==> csize == old(csize) - 1
      ensures c != -1 ==> csize >= 0 && inptr > 0
      ensures old(Pos()) == end ==> fpos == old(fpos) && inptr == old(inptr)
    {
      hide Loaded;
      Bounds();
      if incnt > 0 {
        At(file, inbuf[..], bufstart, fpos, inptr);
        incnt := incnt - 1;
        c := inbuf[inptr];
        inptr := inptr + 1;
      } else {
        c := ReadByte(end);
      }
    }

    /** `undefer_input`: the position is that of the next byte not read, but bytes asked for in
        vain are skipped if there was anything behind the member in the buffer.  In any case one
        can seek from here. */
    method UndeferInput(ghost end: int)
      requires InMember(end)
      modifies this`incnt, this`csize, this`inptr, this`incntLeftover
      ensures Seekable() && incntLeftover == 0
      ensures old(csize) >= 0 ==> Pos() == old(Pos()) && csize == end - Pos() && incnt >= 0 && Ready()
      ensures old(csize) < 0 ==> csize == old(csize)
      ensures old(csize) < 0 ==> Pos() == end + if old(incntLeftover) > 0 then -old(csize) else 0
    {
      if incnt > 0 {
        csize := csize + incnt;
      }
      if incntLeftover > 0 {
        incnt := incntLeftover + csize;
        inptr := inptrLeftover - csize;
        incntLeftover := 0;
      } else {
        incnt := Positive(incnt);
      }
    }
  }

  lemma LoadedBlock(file: seq<Byte>, buf: seq<Byte>, start: nat)
    requires |buf| == InBufSiz + HoldSize && start % InBufSiz == 0
    requires var s := Slice(file, start, InBufSiz); buf[..|s|] == s
    ensures start < |file| ==> Loaded(file, buf, start, start + |Slice(file, start, InBufSiz)|)
  {
  }

  lemma BlockStart(request: nat)
    ensures 0 <= request % InBufSiz <= request && (request - request % InBufSiz) % InBufSiz == 0
  {
  }

  /** `n` bytes of the file, if they are there. */
  function SliceOf(file: seq<Byte>, p: nat, n: nat): seq<Byte> {
    if p + n <= |file| then file[p..p + n] else []
  }

  lemma SliceNone(file: seq<Byte>, p: nat)
    ensures SliceOf(file, p, 0) == []
  {
  }

  lemma SliceCat(file: seq<Byte>, p: nat, n: nat, count: nat)
    ensures p + n + count <= |file| ==>
              SliceOf(file, p, n) + file[p + n..p + n + count] == SliceOf(file, p, n + count)
  {
  }

  lemma SliceAll(file: seq<Byte>, p: nat, n: nat, size: nat)
    requires n <= size && (n > 0 ==> p + n <= |file|) && (n == size || p + n >= |file|)
    ensures n == |Slice(file, p, size)| && SliceOf(file, p, n) == Slice(file, p, size)
  {
  }

  /** One byte of the buffer. */
  lemma At(file: seq<Byte>, buf: seq<Byte>, start: int, fpos: int, i: int)
    requires Loaded(file, buf, start, fpos) && 0 <= i < fpos - start
    ensures i < |buf| && buf[i] == file[start + i]
  {
    assert buf[i] == buf[..fpos - start][i] == file[start..fpos][i];
  }

  // ----- the two ways the buffer is used

  /** Seek and read, as for the central directory and every local header: what a plain seek and
      read would give.  One can go on seeking unless this was past the end of the file. */
  method SeekRead(z: ZipInput, absOffset: int, extraBytes: int, buf: array<Byte>, size: nat) returns (r: nat, n: nat)
    requires z.Seekable() && size <= buf.Length && buf != z.inbuf
    modifies z, z.inbuf, buf
    ensures r in {0, 3, 51}
    ensures r == 3 <==> absOffset + extraBytes < 0
    ensures r == 51 ==> absOffset + extraBytes >= |z.file|
    ensures r == 0 ==> n == |Slice(z.file, absOffset + extraBytes, size)|
    ensures r == 0 ==> buf[..n] == Slice(z.file, absOffset + extraBytes, size)
    ensures r == 0 ==> (z.Seekable() <==> size == 0 || absOffset + extraBytes <= |z.file|)
  {
    hide Loaded, Slice;
    n := 0;
    r := z.ZlSeek(absOffset, extraBytes);
    if r == PkCool {
      n := z.ReadBuf(buf, size);
    }
  }

  /** NEXTBYTE until EOF. */
  method Drain(z: ZipInput, sink: Sink, ghost end: int)
    requires z.InMember(end) && z.csize >= 0 && 0 <= z.Pos() <= |z.file| && sink.Valid() && sink.buf != z.inbuf
    modifies z, z.inbuf, sink, sink.buf
    ensures z.InMember(end) && z.csize >= -1 && (z.csize == -1 <==> z.Pos() == end)
    ensures old(z.Pos()) <= z.Pos() == Min(end, |z.file|)
    ensures sink.Valid() && sink.Sent() == old(sink.Sent()) + z.file[old(z.Pos())..z.Pos()]
    ensures if old(z.Pos()) == end then z.fpos == old(z.fpos) else z.Pos() == end ==> z.inptr > 0
  {
    hide Loaded;
    ghost var p := z.Pos();
    var b := z.NextByte(end);
    while b != -1
      invariant z.InMember(end) && sink.Valid() && p <= z.Pos() <= |z.file|
      invariant if b == -1 then z.Pos() == Min(end, |z.file|) && z.csize >= -1 && (z.csize == -1 <==> z.Pos() == end)
                else p < z.Pos() && b == z.file[z.Pos() - 1] && z.csize >= 0
      invariant if p == end then b == -1 && z.fpos == old(z.fpos) else b != -1 || z.Pos() == end ==> z.inptr > 0
      invariant sink.Sent() == old(sink.Sent()) + z.file[p..if b == -1 then z.Pos() else z.Pos() - 1]
      decreases |z.file| - z.Pos(), b != -1
    {
      SliceLast(z.file, p, z.Pos());
      sink.Put(b);
      b := z.NextByte(end);
    }
  }

  lemma SliceLast(file: seq<Byte>, p: nat, q: nat)
    requires p < q <= |file|
    ensures file[p..q - 1] + [file[q - 1]] == file[p..q]
  {
  }

  /** Whether anything lies behind `end` in the block that the byte before it is in. */
  lemma Behind(z: ZipInput, end: int)
    requires z.Buffered() && z.Pos() == end <= z.fpos && z.inptr > 0
    ensures z.fpos > end <==> end % InBufSiz != 0 && end < |z.file|
  {
    var q := z.bufstart / InBufSiz;
    assert z.bufstart == q * InBufSiz;
  }

  /** A stored member: `defer_leftover_input`, NEXTBYTE until EOF, `undefer_input`.  Its bytes
      come out in order over any number of refills, and no others.  The one EOF read moves the
      position a byte too far exactly if anything behind the member is in the buffer, but seeking
      still works. */
  method StoredMember(z: ZipInput, wsize: nat) returns (out: seq<Byte>)
    requires z.Seekable() && z.incnt >= 0 && z.inptr <= InBufSiz && wsize > 0
    modifies z, z.inbuf
    ensures out == Slice(z.file, old(z.Pos()), Positive(old(z.csize)))
    ensures z.Seekable()
    ensures var end := old(z.Pos()) + Positive(old(z.csize));
            var over := if old(z.csize) > 0 then end % InBufSiz != 0 && end < |z.file| else old(z.incnt) > 0;
            z.Pos() == if end > |z.file| then |z.file| else if over then end + 1 else end
  {
    hide Loaded;
    z.Bounds();
    ghost var p, end, had := z.Pos(), z.Pos() + Positive(z.csize), z.incnt;
    var sink := new Sink(wsize);
    z.DeferLeftoverInput();
    Drain(z, sink, end);
    out := sink.Finish();
    if p < end == z.Pos() {
      Behind(z, end);
    }
    z.UndeferInput(end);
  }

  /** A file of `n` zeros, opened, with its first block in the buffer. */
  method OpenZeros(n: nat) returns (z: ZipInput)
    requires 0 < n <= InBufSiz
    ensures fresh(z) && fresh(z.inbuf) && z.Seekable() && z.file == seq(n, _ => 0)
    ensures z.inptr == 0 && z.bufstart == 0 && z.incnt == n
  {
    var file: seq<Byte> := seq(n, _ => 0);
    z := new ZipInput(file);
    z.incnt := z.Read(InBufSiz);
    LoadedBlock(file, z.inbuf[..], 0);
  }

  /** A stored member of one byte in a file of two leaves the position at two. */
  method OneTooFar() returns (z: ZipInput)
    ensures |z.file| == 2 && z.Pos() == 2
  {
    z := OpenZeros(2);
    z.csize := 1;
    var out := StoredMember(z, 1);
  }

  /** After a seek to five in a file of one byte, and a read there, the count is wrong, and another
      seek within the block does not put it right. */
  method WrongCount() returns (z: ZipInput)
    ensures |z.file| == 1 && z.Pos() == 0 && !z.Seekable()
  {
    z := OpenZeros(1);
    var r := z.ZlSeek(5, 0);
    var buf := new Byte[1];
    Within(z);
    var n := z.ReadBuf(buf, 1);
    Within(z);
    r := z.ZlSeek(0, 0);
    Within(z);
  }

  lemma Within(z: ZipInput)
    requires z.Buffered() && 0 <= z.Pos() < InBufSiz
    ensures z.bufstart == 0
  {
  }
}
