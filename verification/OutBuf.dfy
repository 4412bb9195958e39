/** The output buffer of the decoders that fill it byte by byte. */
module OutBuf {
  import opened Bits

  /** The output buffer, and what `flush` has taken of it. */
  class Sink {
    const buf: array<Byte>
    var cnt: nat
    var flushed: seq<Byte>

    ghost predicate Valid()
      reads this
    {
      cnt < buf.Length
    }

    ghost function Sent(): seq<Byte>
      requires Valid()
      reads this, buf
    {
      flushed + buf[..cnt]
    }

    constructor (size: nat)
      requires size > 0
      ensures Valid() && fresh(buf) && buf.Length == size && cnt == 0 && Sent() == []
    {
      buf := new Byte[size];
      cnt, flushed := 0, [];
    }

    method Put(b: Byte)
      requires Valid()
      modifies this, buf
      ensures Valid() && Sent() == old(Sent()) + [b]
    {
      buf[cnt] := b;
      cnt := cnt + 1;
      assert flushed + buf[..cnt] == old(Sent()) + [b];
      if cnt == buf.Length {
        flushed := flushed + buf[..cnt];
        cnt := 0;
      }
    }

    method Finish() returns (out: seq<Byte>)
      requires Valid()
      modifies this
      ensures out == old(Sent())
    {
      if cnt > 0 {
        flushed := flushed + buf[..cnt];
        cnt := 0;
      }
      out := flushed;
    }
  }
}
