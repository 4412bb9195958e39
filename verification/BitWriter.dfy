/** Writing bits, as section 3.1.1 of RFC 1951 packs them, and finding them again: the other side
  of `BitStream`. */
module BitWriter {
  import opened Bits
  import opened BitStream

  type Bit = b: nat | b < 2

  /** A number of `n` bits, lowest bit first. */
  function Field(v: nat, n: nat): (r: seq<Bit>)
    ensures |r| == n
  {
    if n == 0 then [] else [v % 2] + Field(v / 2, n - 1)
  }

  /** A code word of `n` bits, highest bit first. */
  function Word(v: nat, n: nat): (r: seq<Bit>)
    ensures |r| == n
  {
    if n == 0 then [] else Word(v / 2, n - 1) + [v % 2]
  }

  /** Bytes, each with its lowest bit first. */
  function Bytes(d: seq<Byte>): (r: seq<Bit>)
    ensures |r| == 8 * |d|
  {
    if d == [] then [] else Bytes(d[..|d| - 1]) + Field(d[|d| - 1], 8)
  }

  /** Bit `i` of the bytes. */
  function BitIn(input: seq<Byte>, i: nat): nat
    requires i < 8 * |input|
  {
    input[i / 8] / [1, 2, 4, 8, 16, 32, 64, 128][i % 8] % 2
  }

  /** The bits stand in `input` from bit `p` on. */
  ghost predicate Holds(input: seq<Byte>, p: nat, bits: seq<Bit>) {
    p + |bits| <= 8 * |input| && forall i :: 0 <= i < |bits| ==> BitIn(input, p + i) == bits[i]
  }

  // ----- in terms of the reader

  ghost predicate At(input: seq<Byte>, p: nat, bits: seq<Bit>) {
    p + |bits| <= BitLen(input) && forall i :: 0 <= i < |bits| ==> BitAt(input, p + i) == bits[i]
  }

  lemma Eighth(k: nat)
    requires k < 8
    ensures Pow2(k) == [1, 2, 4, 8, 16, 32, 64, 128][k]
  {
    assert Pow2(0) == 1 && Pow2(1) == 2 && Pow2(2) == 4 && Pow2(3) == 8;
    assert Pow2(4) == 16 && Pow2(5) == 32 && Pow2(6) == 64 && Pow2(7) == 128;
    hide Pow2;
  }

  lemma BitIs(input: seq<Byte>, i: nat)
    requires i < BitLen(input)
    ensures BitAt(input, i) == BitIn(input, i)
  {
    hide Shr, Pow2;
    ShrIsDiv(i % 8, input[i / 8]);
    Eighth(i % 8);
  }

  lemma HoldsAt(input: seq<Byte>, p: nat, bits: seq<Bit>)
    ensures Holds(input, p, bits) <==> At(input, p, bits)
  {
    hide BitAt, BitIn;
    forall i: nat | i < BitLen(input) ensures BitAt(input, i) == BitIn(input, i) {
      BitIs(input, i);
    }
  }

  lemma AtSplit(input: seq<Byte>, p: nat, a: seq<Bit>, b: seq<Bit>)
    ensures At(input, p, a + b) <==> At(input, p, a) && At(input, p + |a|, b)
  {
    hide BitAt;
    if At(input, p, a + b) {
      forall i | 0 <= i < |a| ensures BitAt(input, p + i) == a[i] {
        assert (a + b)[i] == a[i];
      }
      forall i | 0 <= i < |b| ensures BitAt(input, p + |a| + i) == b[i] {
        assert (a + b)[|a| + i] == b[i];
        assert BitAt(input, p + (|a| + i)) == (a + b)[|a| + i];
      }
    }
    if At(input, p, a) && At(input, p + |a|, b) {
      forall i | 0 <= i < |a + b| ensures BitAt(input, p + i) == (a + b)[i] {
        if i >= |a| {
          assert BitAt(input, p + |a| + (i - |a|)) == b[i - |a|];
        }
      }
    }
  }

  lemma AtOne(input: seq<Byte>, p: nat, x: Bit)
    ensures At(input, p, [x]) <==> p < BitLen(input) && BitAt(input, p) == x
  {
    hide BitAt;
    assert [x][0] == x && BitAt(input, p + 0) == BitAt(input, p);
  }

  lemma {:induction false} PeekField(input: seq<Byte>, p: nat, v: nat, n: nat)
    requires At(input, p, Field(v, n)) && v < Pow2(n)
    ensures Peek(input, p, n) == v
    decreases n
  {
    if n > 0 {
      AtSplit(input, p, [v % 2], Field(v / 2, n - 1));
      AtOne(input, p, v % 2);
      PeekField(input, p + 1, v / 2, n - 1);
    }
  }

  lemma {:induction false} MsbWord(input: seq<Byte>, p: nat, v: nat, n: nat)
    requires At(input, p, Word(v, n)) && v < Pow2(n)
    ensures Msb(input, p, n) == v
    decreases n
  {
    if n > 0 {
      AtSplit(input, p, Word(v / 2, n - 1), [v % 2]);
      AtOne(input, p + n - 1, v % 2);
      MsbWord(input, p, v / 2, n - 1);
    }
  }

  lemma AtLength(input: seq<Byte>, p: nat, bits: seq<Bit>)
    requires At(input, p, bits)
    ensures p + |bits| <= 8 * |input|
  {
  }

  lemma BytesOne(d: seq<Byte>, b: Byte)
    ensures Bytes(d + [b]) == Bytes(d) + Field(b, 8)
  {
    assert (d + [b])[..|d|] == d;
  }

  /** Whole bytes at a byte boundary. */
  lemma {:induction false} BytesAt(input: seq<Byte>, q: nat, d: seq<Byte>, eight: nat)
    requires eight == 8 && At(input, eight * q, Bytes(d))
    ensures q + |d| <= |input| && input[q..q + |d|] == d
    decreases |d|
  {
    hide At, Field, Peek, Pow2;
    AtLength(input, eight * q, Bytes(d));
    if d != [] {
      var n := |d| - 1;
      AtSplit(input, eight * q, Bytes(d[..n]), Field(d[n], eight));
      BytesAt(input, q, d[..n], eight);
      Pow2Of8();
      PeekField(input, eight * (q + n), d[n], eight);
      PeekByte(input, q + n, eight);
      assert input[q..q + |d|] == input[q..q + n] + [input[q + n]];
    }
  }

  lemma {:induction false} BytesHold(input: seq<Byte>, q: nat, d: seq<Byte>)
    requires q + |d| <= |input| && input[q..q + |d|] == d
    ensures At(input, 8 * q, Bytes(d))
    decreases |d|
  {
    hide At, Field;
    AtNothing(input, 8 * q);
    if d != [] {
      var n := |d| - 1;
      assert input[q..q + n] == d[..n] && input[q + n] == d[n];
      BytesHold(input, q, d[..n]);
      FieldBits(input, q + n, 8, 0);
      ShrZero(d[n]);
      AtSplit(input, 8 * q, Bytes(d[..n]), Field(d[n], 8));
    }
  }

  // ----- packing

  function Value(bits: seq<Bit>): nat {
    if bits == [] then 0 else bits[0] + 2 * Value(bits[1..])
  }

  lemma {:induction false} ValueSmall(bits: seq<Bit>)
    ensures Value(bits) < Pow2(|bits|)
    decreases |bits|
  {
    if bits != [] {
      ValueSmall(bits[1..]);
    }
  }

  lemma {:induction false} ValueField(bits: seq<Bit>)
    ensures Field(Value(bits), |bits|) == bits
    decreases |bits|
  {
    if bits != [] {
      ValueField(bits[1..]);
      assert Value(bits) % 2 == bits[0] && Value(bits) / 2 == Value(bits[1..]);
    }
  }

  /** Eight bits to a byte, the last one filled up with zeros. */
  function Pack(bits: seq<Bit>): (r: seq<Byte>)
    ensures |r| == (|bits| + 7) / 8
    decreases |bits|
  {
    if bits == [] then []
    else
      var n := if |bits| < 8 then |bits| else 8;
      ValueSmall(bits[..n]);
      Pow2Of8();
      Pow2Mono(n, 8);
      [Value(bits[..n])] + Pack(bits[n..])
  }

  lemma AtShift(input: seq<Byte>, b: Byte, p: nat, bits: seq<Bit>)
    requires At(input, p, bits)
    ensures At([b] + input, p + 8, bits)
  {
    hide Shr;
    forall i | 0 <= i < |bits| ensures BitAt([b] + input, p + 8 + i) == bits[i] {
      assert BitAt(input, p + i) == bits[i];
      assert (p + 8 + i) / 8 == (p + i) / 8 + 1 && (p + 8 + i) % 8 == (p + i) % 8;
    }
  }

  lemma ShrOne(x: nat)
    ensures Shr(x, 1) == x / 2
  {
    assert Shr(x / 2, 0) == x / 2;
  }

  lemma FieldOfByte(input: seq<Byte>, b: Byte, v: nat, n: nat)
    requires n <= 8 && b == v
    ensures At([b] + input, 0, Field(v, n))
  {
    FieldBits([b] + input, 0, n, 0);
    ShrZero(b);
  }

  lemma {:induction false} FieldBits(input: seq<Byte>, q: nat, n: nat, k: nat)
    requires q < |input| && n + k <= 8
    ensures At(input, 8 * q + k, Field(Shr(input[q], k), n))
    decreases n
  {
    hide At, Shr;
    AtNothing(input, 8 * q + k);
    if n > 0 {
      FieldBits(input, q, n - 1, k + 1);
      ShrOne(Shr(input[q], k));
      ShrShr(input[q], k, 1);
      assert (8 * q + k) / 8 == q && (8 * q + k) % 8 == k;
      AtOne(input, 8 * q + k, Shr(input[q], k) % 2);
      AtSplit(input, 8 * q + k, [Shr(input[q], k) % 2], Field(Shr(input[q], k) / 2, n - 1));
    }
  }

  /** What was packed is there. */
  lemma {:induction false} PackHolds(bits: seq<Bit>)
    ensures Holds(Pack(bits), 0, bits)
    decreases |bits|
  {
    hide At, Holds, Field;
    HoldsAt(Pack(bits), 0, bits);
    if bits != [] {
      var n := if |bits| < 8 then |bits| else 8;
      PackHolds(bits[n..]);
      HoldsAt(Pack(bits[n..]), 0, bits[n..]);
      ValueField(bits[..n]);
      var b := Pack(bits)[0];
      assert Pack(bits) == [b] + Pack(bits[n..]);
      FieldOfByte(Pack(bits[n..]), b, Value(bits[..n]), n);
      assert bits == bits[..n] + bits[n..];
      if n == 8 {
        AtShift(Pack(bits[n..]), b, 0, bits[n..]);
        AtSplit(Pack(bits), 0, bits[..n], bits[n..]);
      } else {
        assert bits[..n] == bits;
      }
    } else {
      AtNothing(Pack(bits), 0);
    }
  }

  lemma AtNothing(input: seq<Byte>, p: nat)
    ensures At(input, p, []) <==> p <= BitLen(input)
  {
  }

  /** More bytes behind do not matter. */
  lemma AtMore(input: seq<Byte>, more: seq<Byte>, p: nat, bits: seq<Bit>)
    requires At(input, p, bits)
    ensures At(input + more, p, bits)
  {
    hide Shr;
    forall i | 0 <= i < |bits| ensures BitAt(input + more, p + i) == bits[i] {
      assert BitAt(input, p + i) == bits[i];
    }
  }
}
