/** The sliding window: a circular buffer that is also the output buffer.

  The meaning of the window is the whole history: `pre`, the `size` bytes that stand before
  the first output byte, then everything written so far.  For inflate `pre` is whatever the
  buffer held at the start; for explode it is zeros, and `unflushed` (the source's `u`) says
  that the part of the buffer not yet written must be read as those zeros. */
module Window {
  import opened Bits

  /** The meaning of a match: append the byte `dist` back, `n` times. */
  function CopyMatch(h: seq<Byte>, dist: nat, n: nat): (r: seq<Byte>)
    requires 1 <= dist <= |h|
    ensures |r| == |h| + n && h <= r
    decreases n
  {
    if n == 0 then h else CopyMatch(h + [h[|h| - dist]], dist, n - 1)
  }

  lemma {:induction false} CopyMatchAdd(h: seq<Byte>, dist: nat, n: nat, m: nat)
    requires 1 <= dist <= |h|
    ensures CopyMatch(CopyMatch(h, dist, n), dist, m) == CopyMatch(h, dist, n + m)
    decreases n
  {
    if n > 0 {
      CopyMatchAdd(h + [h[|h| - dist]], dist, n - 1, m);
    }
  }

  /** A match no longer than its distance is a block copy. */
  lemma {:induction false} CopyMatchBlock(h: seq<Byte>, dist: nat, n: nat)
    requires n <= dist && 1 <= dist <= |h|
    ensures CopyMatch(h, dist, n) == h + h[|h| - dist..|h| - dist + n]
    decreases n
  {
    if n > 0 {
      CopyMatchBlock(h, dist, n - 1);
      CopyMatchAdd(h, dist, n - 1, 1);
      var g := CopyMatch(h, dist, n - 1);
      assert g[|g| - dist] == h[|h| - dist + n - 1];
      assert CopyMatch(g, dist, 1) == g + [g[|g| - dist]];
    } else {
      assert h[|h| - dist..|h| - dist + n] == [];
    }
  }

  /** Bytes at the front that a match never reaches do not matter. */
  lemma {:induction false} CopyMatchFrame(pre: seq<Byte>, h: seq<Byte>, dist: nat, n: nat)
    requires 1 <= dist <= |h|
    ensures CopyMatch(pre + h, dist, n) == pre + CopyMatch(h, dist, n)
    decreases n
  {
    if n > 0 {
      var b := h[|h| - dist];
      assert (pre + h)[|pre + h| - dist] == b;
      assert pre + h + [b] == pre + (h + [b]);
      CopyMatchFrame(pre, h + [b], dist, n - 1);
    }
  }

  /** A circular buffer `ring` at position `w`, after `out` has been flushed: what lies ahead
      of `w` is the tail of what was written one window earlier.  With `unflushed` nothing was,
      and it counts as zeros. */
  ghost predicate Ring(pre: seq<Byte>, out: seq<Byte>, ring: seq<Byte>, w: nat, unflushed: bool) {
    && 0 < |ring| == |pre|
    && w <= |ring|
    && (unflushed ==> out == [] && forall j :: 0 <= j < |pre| ==> pre[j] == 0)
    && (!unflushed ==> forall j :: w <= j < |ring| ==> ring[j] == (pre + out)[|out| + j])
  }

  /** The bytes before position `w`. */
  ghost function Hist(pre: seq<Byte>, out: seq<Byte>, ring: seq<Byte>, w: nat): seq<Byte>
    requires w <= |ring|
  {
    pre + out + ring[..w]
  }

  lemma HistIs(pre: seq<Byte>, out: seq<Byte>, ring: seq<Byte>, w: nat)
    requires w <= |ring|
    ensures Hist(pre, out, ring, w) == pre + (out + ring[..w])
  {
  }

  /** The `e` bytes from `dist` back on, in terms of the buffer. */
  lemma BehindRange(pre: seq<Byte>, out: seq<Byte>, ring: seq<Byte>, w: nat, unflushed: bool, dist: nat, d: nat, e: nat)
    requires Ring(pre, out, ring, w, unflushed)
    requires 1 <= dist <= |ring| && (d == w - dist || d == w - dist + |ring|)
    requires e <= dist && d + e <= |ring|
    ensures var h := Hist(pre, out, ring, w);
            h[|h| - dist..|h| - dist + e] == if unflushed && w <= d then seq(e, _ => 0) else ring[d..d + e]
  {
    var h := Hist(pre, out, ring, w);
    var r := h[|h| - dist..|h| - dist + e];
    if d == w - dist {
      assert forall t :: 0 <= t < e ==> r[t] == h[|pre + out| + (d + t)];
      assert d < w;
      assert r == ring[d..d + e];
    } else if unflushed {
      assert forall t :: 0 <= t < e ==> r[t] == h[d + t];
    } else {
      assert forall t :: 0 <= t < e ==> r[t] == h[|out| + (d + t)];
      assert r == ring[d..d + e];
    }
  }

  lemma RingFacts(pre: seq<Byte>, out: seq<Byte>, ring: seq<Byte>, w: nat, unflushed: bool)
    requires Ring(pre, out, ring, w, unflushed)
    ensures 0 < |ring| == |pre| && w <= |ring| && |Hist(pre, out, ring, w)| >= |ring|
  {
  }

  /** Writing a block at the current position appends it to the history. */
  lemma WriteBlock(pre: seq<Byte>, out: seq<Byte>, ring: seq<Byte>, w: nat, unflushed: bool, block: seq<Byte>, ring': seq<Byte>)
    requires Ring(pre, out, ring, w, unflushed) && w + |block| <= |ring|
    requires ring' == ring[..w] + block + ring[w + |block|..]
    ensures Ring(pre, out, ring', w + |block|, unflushed)
    ensures Hist(pre, out, ring', w + |block|) == Hist(pre, out, ring, w) + block
  {
    assert ring'[..w + |block|] == ring[..w] + block;
  }

  lemma WriteOne(pre: seq<Byte>, out: seq<Byte>, ring: seq<Byte>, w: nat, unflushed: bool, b: Byte, ring': seq<Byte>)
    requires Ring(pre, out, ring, w, unflushed) && w < |ring| && ring' == ring[w := b]
    ensures Ring(pre, out, ring', w + 1, unflushed)
    ensures Hist(pre, out, ring', w + 1) == Hist(pre, out, ring, w) + [b]
  {
    WriteBlock(pre, out, ring, w, unflushed, [b], ring');
  }

  lemma BehindOne(pre: seq<Byte>, out: seq<Byte>, ring: seq<Byte>, w: nat, unflushed: bool, dist: nat, d: nat)
    requires Ring(pre, out, ring, w, unflushed)
    requires 1 <= dist <= |ring| && (d == w - dist || d == w - dist + |ring|)
    requires d < |ring| && !(unflushed && w <= d)
    ensures var h := Hist(pre, out, ring, w); |h| >= dist && h[|h| - dist] == ring[d]
  {
    BehindRange(pre, out, ring, w, unflushed, dist, d, 1);
    var h := Hist(pre, out, ring, w);
    assert h[|h| - dist..|h| - dist + 1][0] == ring[d..d + 1][0];
  }

  lemma CopyMatchOne(h: seq<Byte>, dist: nat)
    requires 1 <= dist <= |h|
    ensures CopyMatch(h, dist, 1) == h + [h[|h| - dist]]
  {
    assert CopyMatch(h + [h[|h| - dist]], dist, 0) == h + [h[|h| - dist]];
  }

  class Window {
    const size: nat              // WSIZE
    const slide: array<Byte>
    var w: nat                   // current window position
    var out: seq<Byte>           // what has been flushed
    var unflushed: bool          // true if unflushed
    ghost const pre: seq<Byte>   // what stands before the first output byte

    /** The window is consistent; `w == size` only just before a flush. */
    ghost predicate Inv()
      reads this, slide
    {
      size == slide.Length && Ring(pre, out, slide[..], w, unflushed)
    }

    ghost predicate Valid()
      reads this, slide
    {
      Inv() && w < size
    }

    /** Everything before the next byte. */
    ghost function History(): seq<Byte>
      requires Inv()
      reads this, slide
    {
      Hist(pre, out, slide[..], w)
    }

    /** All bytes written so far. */
    ghost function Written(): seq<Byte>
      requires Inv()
      reads this, slide
    {
      out + slide[..w]
    }

    /** A window over a buffer with arbitrary contents, which are its own prehistory. */
    constructor Over(buffer: array<Byte>)
      requires buffer.Length > 0
      ensures Valid() && History() == buffer[..] && Written() == [] && pre == buffer[..]
      ensures !unflushed && slide == buffer && size == buffer.Length
    {
      size, slide, w, out, unflushed := buffer.Length, buffer, 0, [], false;
      pre := buffer[..];
    }

    /** A window whose prehistory is zeros, whatever its buffer holds. */
    constructor Zeroed(buffer: array<Byte>)
      requires buffer.Length > 0
      ensures Valid() && Written() == [] && pre == seq(buffer.Length, _ => 0) && History() == pre
      ensures unflushed && slide == buffer && size == buffer.Length
    {
      size, slide, w, out, unflushed := buffer.Length, buffer, 0, [], true;
      pre := seq(buffer.Length, _ => 0);
    }

    /** `if (w == wsize) { FLUSH(w); w = u = 0; }` */
    method FlushIfFull()
      requires Inv()
      modifies this`w, this`out, this`unflushed
      ensures Valid() && History() == old(History())
      ensures w == if old(w) == size then 0 else old(w)
    {
      if w == size {
        out := out + slide[..w];
        w, unflushed := 0, false;
      }
    }

    /** `redirSlide[w++] = b`, and flush if that fills the window. */
    method Put(b: Byte)
      requires Valid()
      modifies this`w, this`out, this`unflushed, slide
      ensures Valid() && History() == old(History()) + [b]
    {
      slide[w] := b;
      w := w + 1;
      FlushIfFull();
    }

    /** `FLUSH(w)` at the end of the member. */
    method Flush()
      requires Valid()
      modifies this`out, this`w
      ensures out == old(Written()) && w == 0
    {
      out := out + slide[..w];
      w := 0;
    }

    /** memzero: the source bytes are zeros that were never stored. */
    method CopyZeros(ghost d: nat, e: nat, ghost dist: nat)
      requires Valid() && 1 <= dist <= size
      requires d + e <= size && w + e <= size && (d == w - dist || d == w - dist + size)
      requires unflushed && w <= d
      modifies this`w, slide
      ensures Inv() && w == old(w) + e
      ensures History() == CopyMatch(old(History()), dist, e)
    {
      hide CopyMatch, Ring, Hist;
      ghost var h, ring := History(), slide[..];
      RingFacts(pre, out, ring, w, unflushed);
      BehindRange(pre, out, ring, w, unflushed, dist, d, e);
      CopyMatchBlock(h, dist, e);
      forall t | w <= t < w + e {
        slide[t] := 0;
      }
      assert slide[..] == ring[..w] + seq(e, _ => 0) + ring[w + e..];
      WriteBlock(pre, out, ring, w, unflushed, seq(e, _ => 0), slide[..]);
      w := w + e;
    }

    /** memcpy, also where the source lies ahead and the ranges may overlap. */
    method CopyBlock(d: nat, e: nat, ghost dist: nat)
      requires Valid() && 1 <= dist <= size
      requires d + e <= size && w + e <= size && (d == w - dist || d == w - dist + size)
      requires !(unflushed && w <= d) && e <= dist
      modifies this`w, slide
      ensures Inv() && w == old(w) + e
      ensures History() == CopyMatch(old(History()), dist, e)
    {
      hide CopyMatch, Ring, Hist;
      ghost var h, ring := History(), slide[..];
      RingFacts(pre, out, ring, w, unflushed);
      BehindRange(pre, out, ring, w, unflushed, dist, d, e);
      CopyMatchBlock(h, dist, e);
      Move(slide, w, d, e);
      WriteBlock(pre, out, ring, w, unflushed, ring[d..d + e], slide[..]);
      w := w + e;
    }

    /** Copy a byte at a time, each one visible to the next. */
    method CopySlowly(d: nat, e: nat, ghost dist: nat)
      requires Valid() && 1 <= dist <= size
      requires d + e <= size && w + e <= size && (d == w - dist || d == w - dist + size)
      requires !(unflushed && w <= d)
      modifies this`w, slide
      ensures Inv() && w == old(w) + e
      ensures History() == CopyMatch(old(History()), dist, e)
    {
      hide CopyMatch, Ring, Hist;
      RingFacts(pre, out, slide[..], w, unflushed);
      ghost var h := History();
      CopyMatchBlock(h, dist, 0);
      var t := 0;
      while t < e
        invariant 0 <= t <= e && w == old(w) + t
        invariant Inv() && History() == CopyMatch(h, dist, t)
      {
        ghost var g, ring := History(), slide[..];
        BehindOne(pre, out, ring, w, unflushed, dist, d + t);
        CopyMatchAdd(h, dist, t, 1);
        CopyMatchOne(g, dist);
        slide[w] := slide[d + t];
        WriteOne(pre, out, ring, w, unflushed, ring[d + t], slide[..]);
        w := w + 1;
        t := t + 1;
      }
    }

    /** Copy `e` bytes from window index `d` to the current position: zeros, a block copy, or
        byte by byte where the two ranges overlap. */
    method CopyChunk(d: nat, e: nat, ghost dist: nat)
      requires Valid() && 1 <= dist <= size
      requires d + e <= size && w + e <= size && (d == w - dist || d == w - dist + size)
      modifies this`w, slide
      ensures Inv() && w == old(w) + e
      ensures History() == CopyMatch(old(History()), dist, e)
    {
      hide CopyMatch, Ring, Hist;
      if unflushed && w <= d {
        CopyZeros(d, e, dist);
      } else if w < d || w - d >= e {  // the source compares unsigned numbers
        CopyBlock(d, e, dist);
      } else {  // do it slowly to avoid memcpy() overlap
        CopySlowly(d, e, dist);
      }
    }

    /** The copy loop: mask the source index into the window, copy as much as neither index
        can run off the end of it, flush when the window is full, and go round again. */
    method Copy(dist: nat, n: nat)
      requires Valid() && 1 <= dist <= size && 1 <= n
      modifies this`w, this`out, this`unflushed, slide
      ensures Valid() && History() == CopyMatch(old(History()), dist, n)
    {
      hide CopyMatch, Ring, Hist;
      RingFacts(pre, out, slide[..], w, unflushed);
      ghost var h := History();
      CopyMatchBlock(h, dist, 0);
      var d: int := w - dist;  // an unsigned difference in the source
      var left: nat := n;
      while true
        invariant Valid() && 0 < left <= n
        invariant 0 - size <= d <= size
        invariant d == w - dist || d == w - dist + size || d == w - dist + 2 * size
        invariant History() == CopyMatch(h, dist, n - left)
        decreases left
      {
        MaskIs(d, size);
        d := d % size;  // d &= wsize - 1
        var e := size - (if d > w then d else w);
        e := if e > left then left else e;
        CopyMatchAdd(h, dist, n - left, e);
        left := left - e;
        CopyChunk(d, e, dist);
        d := d + e;
        FlushIfFull();
        if left == 0 {
          break;
        }
      }
    }
  }

  /** memcpy, with the bytes as they were before the call. */
  method Move(a: array<Byte>, w: nat, d: nat, e: nat)
    requires w + e <= a.Length && d + e <= a.Length
    modifies a
    ensures a[..] == old(a[..])[..w] + old(a[..])[d..d + e] + old(a[..])[w + e..]
  {
    ghost var was := a[..];
    forall t | w <= t < w + e {
      a[t] := a[d + (t - w)];
    }
    forall t | 0 <= t < a.Length
      ensures a[..][t] == (was[..w] + was[d..d + e] + was[w + e..])[t]
    {
    }
  }

  lemma MaskIs(d: int, size: nat)
    requires 0 < size && 0 - size <= d <= size
    ensures d % size == if d == size || d + size == 0 then 0 else if d < 0 then d + size else d
  {
    if d < 0 {
      DivUnique(d, size, -1, d + size);
    } else if d < size {
      DivUnique(d, size, 0, d);
    }
  }

  /** After a match, every byte of it is the one `dist` before it. */
  lemma {:induction false} CopyMatchAt(h: seq<Byte>, dist: nat, n: nat, i: nat)
    requires 1 <= dist <= |h| && |h| <= i < |h| + n
    ensures |CopyMatch(h, dist, n)| == |h| + n && CopyMatch(h, dist, n)[..|h|] == h
    ensures CopyMatch(h, dist, n)[i] == CopyMatch(h, dist, n)[i - dist]
    decreases n
  {
    var g := h + [h[|h| - dist]];
    if i > |h| {
      CopyMatchAt(g, dist, n - 1, i);
    }
    assert CopyMatch(h, dist, n)[..|g|] == g;
    assert CopyMatch(h, dist, n)[..|g|][|h|] == CopyMatch(h, dist, n)[|h|];
    assert CopyMatch(h, dist, n)[..|g|][|h| - dist] == CopyMatch(h, dist, n)[|h| - dist];
  }
}
