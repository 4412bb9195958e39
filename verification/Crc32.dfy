/** crc32 and make_crc_table: the table-driven CRC against the bit-serial shift register, and
  what the checksum is for. */
module Crc32 {
  import opened Wrappers

  type Word = bv32

  const Polynomial: Word := 0xedb88320
  const Ones: Word := 0xffffffff

  // Named, so that proofs about the register need not look into the words.
  function Xor(a: Word, b: Word): Word { a ^ b }
  function Half(a: Word): Word { a >> 1 }
  function High(a: Word): Word { a >> 8 }
  function Low(a: Word): Word { a & 0xff }

  // ----- the shift register

  /** One clock of the register with nothing coming in. */
  function Step(c: Word): Word {
    if c & 1 == 1 then Polynomial ^ (c >> 1) else c >> 1
  }

  /** One clock of the register while one bit of the message comes in. */
  function Clock(c: Word, bit: bool): Word {
    Step(Xor(c, if bit then 1 else 0))
  }

  function Feed(c: Word, bits: seq<bool>): Word
    decreases |bits|
  {
    if bits == [] then c else Feed(Clock(c, bits[0]), bits[1..])
  }

  /** The low `n` bits of a word, lowest first. */
  function LowBits(w: Word, n: nat): (bits: seq<bool>)
    ensures |bits| == n
    decreases n
  {
    if n == 0 then [] else [w & 1 == 1] + LowBits(Half(w), n - 1)
  }

  /** A buffer as a string of bits. */
  function Bits(buf: seq<bv8>): (bits: seq<bool>)
    ensures |bits| == 8 * |buf|
    decreases |buf|
  {
    if buf == [] then [] else LowBits(buf[0] as Word, 8) + Bits(buf[1..])
  }

  /** CRC-32 of `buf`, going on from `crc`. */
  function Crc(crc: Word, buf: seq<bv8>): Word {
    Xor(Feed(Xor(crc, Ones), Bits(buf)), Ones)
  }

  lemma XorTwice(c: Word, b: Word)
    ensures Xor(Xor(c, b), b) == c
    ensures Xor(c, b) == 0 <==> c == b
  {
  }

  // ----- the CRC does not depend on how a message is cut

  lemma FeedUnfold(c: Word, bits: seq<bool>)
    ensures Feed(c, bits) == if bits == [] then c else Feed(Clock(c, bits[0]), bits[1..])
  {
    hide Clock;
  }

  lemma {:induction false} FeedAppend(c: Word, x: seq<bool>, y: seq<bool>)
    ensures Feed(c, x + y) == Feed(Feed(c, x), y)
    decreases |x|
  {
    hide *;
    FeedUnfold(c, x);
    FeedUnfold(c, x + y);
    if x == [] {
      assert x + y == y;
    } else {
      FeedAppend(Clock(c, x[0]), x[1..], y);
      assert (x + y)[1..] == x[1..] + y;
    }
  }

  lemma {:induction false} BitsAppend(a: seq<bv8>, b: seq<bv8>)
    ensures Bits(a + b) == Bits(a) + Bits(b)
    decreases |a|
  {
    hide LowBits;
    if a == [] {
      assert a + b == b;
    } else {
      BitsAppend(a[1..], b);
      assert (a + b)[1..] == a[1..] + b;
      assert (a + b)[0] == a[0];
    }
  }

  lemma CrcAppend(crc: Word, a: seq<bv8>, b: seq<bv8>)
    ensures Crc(Crc(crc, a), b) == Crc(crc, a + b)
  {
    hide Feed, Bits, Xor;
    XorTwice(Feed(Xor(crc, Ones), Bits(a)), Ones);
    BitsAppend(a, b);
    FeedAppend(Xor(crc, Ones), Bits(a), Bits(b));
  }

  // ----- the register is linear

  lemma StepBits(a: Word, b: Word)
    ensures Step(a ^ b) == Step(a) ^ Step(b)
  {
    ShiftXor(a, b);
    LowXor(a, b);
    FourXor(Polynomial, a >> 1, b >> 1);
  }

  lemma ShiftXor(a: Word, b: Word)
    ensures (a ^ b) >> 1 == (a >> 1) ^ (b >> 1)
  {
  }

  lemma LowXor(a: Word, b: Word)
    ensures (a ^ b) & 1 == if a & 1 == b & 1 then 0 else 1
    ensures a & 1 != 1 ==> a & 1 == 0
    ensures b & 1 != 1 ==> b & 1 == 0
  {
  }

  lemma FourXor(p: Word, x: Word, y: Word)
    ensures (p ^ x) ^ (p ^ y) == x ^ y
    ensures (p ^ x) ^ y == p ^ (x ^ y)
    ensures x ^ (p ^ y) == p ^ (x ^ y)
  {
  }

  lemma StepXor(a: Word, b: Word)
    ensures Step(Xor(a, b)) == Xor(Step(a), Step(b))
  {
    hide Step;
    StepBits(a, b);
  }

  function Steps(c: Word, n: nat): Word
    decreases n
  {
    if n == 0 then c else Steps(Step(c), n - 1)
  }

  lemma StepsUnfold(c: Word, n: nat)
    ensures Steps(c, n) == if n == 0 then c else Steps(Step(c), n - 1)
  {
    hide Step;
  }

  lemma {:induction false} StepsXor(a: Word, b: Word, n: nat)
    ensures Steps(Xor(a, b), n) == Xor(Steps(a, n), Steps(b, n))
    decreases n
  {
    hide *;
    StepsUnfold(Xor(a, b), n);
    StepsUnfold(a, n);
    StepsUnfold(b, n);
    if n > 0 {
      StepXor(a, b);
      StepsXor(Step(a), Step(b), n - 1);
    }
  }

  // ----- eight clocks are one look into the table

  /** `b` shifted right `n` times. */
  function Drop(b: Word, n: nat): Word
    decreases n
  {
    if n == 0 then b else Drop(Half(b), n - 1)
  }

  lemma DropUnfold(b: Word, n: nat)
    ensures Drop(b, n) == if n == 0 then b else Drop(Half(b), n - 1)
  {
    hide Half;
  }

  lemma ClockAbsorbs(c: Word, b: Word)
    ensures Xor(Clock(c, b & 1 == 1), Half(b)) == Step(Xor(c, b))
  {
    hide Step;
    LowBit(b);
    OneBit(c, b);
  }

  lemma LowBit(b: Word)
    ensures (if b & 1 == 1 then 1 else 0) == b & 1
  {
  }

  lemma OneBit(c: Word, b: Word)
    ensures Step(c ^ (b & 1)) ^ (b >> 1) == Step(c ^ b)
  {
  }

  /** Bits that come in one by one may as well all be there at the start. */
  lemma {:induction false} FeedIsSteps(c: Word, b: Word, n: nat)
    ensures Feed(c, LowBits(b, n)) == Xor(Steps(Xor(c, b), n), Drop(b, n))
    decreases n
  {
    hide *;
    FeedUnfold(c, LowBits(b, n));
    StepsUnfold(Xor(c, b), n);
    DropUnfold(b, n);
    LowBitsUnfold(b, n);
    if n == 0 {
      XorTwice(c, b);
    } else {
      FeedIsSteps(Clock(c, b & 1 == 1), Half(b), n - 1);
      ClockAbsorbs(c, b);
    }
  }

  lemma LowBitsUnfold(b: Word, n: nat)
    ensures n == 0 ==> LowBits(b, n) == []
    ensures n > 0 ==> LowBits(b, n)[0] == (b & 1 == 1) && LowBits(b, n)[1..] == LowBits(Half(b), n - 1)
  {
    hide Half;
  }

  lemma EightShifts(b: Word)
    ensures Half(Half(Half(Half(Half(Half(Half(Half(b)))))))) == High(b)
  {
  }

  lemma DropByte(b: Word, eight: nat)
    requires eight == 8
    ensures Drop(b, eight) == High(b)
  {
    hide *;
    DropUnfold(b, eight);
    DropUnfold(Half(b), eight - 1);
    DropUnfold(Half(Half(b)), eight - 2);
    DropUnfold(Half(Half(Half(b))), eight - 3);
    DropUnfold(Half(Half(Half(Half(b)))), eight - 4);
    DropUnfold(Half(Half(Half(Half(Half(b))))), eight - 5);
    DropUnfold(Half(Half(Half(Half(Half(Half(b)))))), eight - 6);
    DropUnfold(Half(Half(Half(Half(Half(Half(Half(b))))))), eight - 7);
    DropUnfold(Half(Half(Half(Half(Half(Half(Half(Half(b)))))))), eight - 8);
    EightShifts(b);
  }

  lemma StepEven(b: Word)
    requires b & 1 == 0
    ensures Step(b) == Half(b)
  {
  }

  predicate LowClear(b: Word, n: nat)
    decreases n
  {
    n == 0 || (b & 1 == 0 && LowClear(Half(b), n - 1))
  }

  /** With its low `n` bits clear, `n` clocks only shift a word. */
  lemma {:induction false} StepsDrop(b: Word, n: nat)
    requires LowClear(b, n)
    ensures Steps(b, n) == Drop(b, n)
    decreases n
  {
    hide Steps, Drop, Step, Half;
    StepsUnfold(b, n);
    DropUnfold(b, n);
    if n > 0 {
      StepEven(b);
      StepsDrop(Half(b), n - 1);
    }
  }

  lemma ClearUnfold(b: Word, n: nat)
    requires n > 0 ==> b & 1 == 0 && LowClear(Half(b), n - 1)
    ensures LowClear(b, n)
  {
    hide Half;
  }

  lemma EightEven(b: Word)
    ensures var h := b & 0xffffff00;
            && h & 1 == 0
            && Half(h) & 1 == 0
            && Half(Half(h)) & 1 == 0
            && Half(Half(Half(h))) & 1 == 0
            && Half(Half(Half(Half(h)))) & 1 == 0
            && Half(Half(Half(Half(Half(h))))) & 1 == 0
            && Half(Half(Half(Half(Half(Half(h)))))) & 1 == 0
            && Half(Half(Half(Half(Half(Half(Half(h))))))) & 1 == 0
  {
  }

  lemma ByteClear(b: Word, eight: nat)
    requires eight == 8
    ensures LowClear(b & 0xffffff00, eight)
  {
    hide *;
    var h := b & 0xffffff00;
    EightEven(b);
    ClearUnfold(Half(Half(Half(Half(Half(Half(Half(Half(h)))))))), eight - 8);
    ClearUnfold(Half(Half(Half(Half(Half(Half(Half(h))))))), eight - 7);
    ClearUnfold(Half(Half(Half(Half(Half(Half(h)))))), eight - 6);
    ClearUnfold(Half(Half(Half(Half(Half(h))))), eight - 5);
    ClearUnfold(Half(Half(Half(Half(h)))), eight - 4);
    ClearUnfold(Half(Half(Half(h))), eight - 3);
    ClearUnfold(Half(Half(h)), eight - 2);
    ClearUnfold(Half(h), eight - 1);
    ClearUnfold(h, eight);
  }

  lemma SplitByte(c: Word)
    ensures Xor(Low(c), c & 0xffffff00) == c && High(c & 0xffffff00) == High(c)
  {
  }

  lemma ByteShift(c: Word, b: bv8)
    ensures High(Xor(c, b as Word)) == High(c) && High(b as Word) == 0
  {
  }

  lemma XorZero(c: Word)
    ensures Xor(c, 0) == c
  {
  }

  /** What the table holds: eight clocks of each byte. */
  function Entry(n: Word): Word {
    Steps(n, 8)
  }

  /** The table step, is eight bits coming in. */
  lemma TableStep(c: Word, b: bv8)
    ensures Xor(Entry(Low(Xor(c, b as Word))), High(c)) == Feed(c, LowBits(b as Word, 8))
  {
    hide *;
    var w := Xor(c, b as Word);
    var eight: nat := 8;
    EntryIs(Low(w), eight);
    FeedIsSteps(c, b as Word, eight);
    DropByte(b as Word, eight);
    ByteShift(c, b);
    XorZero(Steps(w, eight));
    SplitByte(w);
    StepsXor(Low(w), w & 0xffffff00, eight);
    ByteClear(w, eight);
    StepsDrop(w & 0xffffff00, eight);
    DropByte(w & 0xffffff00, eight);
  }

  lemma EntryIs(n: Word, eight: nat)
    requires eight == 8
    ensures Entry(n) == Steps(n, eight)
  {
    hide Steps;
  }

  /** The first `n` entries are there. */
  ghost predicate FilledTo(t: seq<Word>, n: nat) {
    n <= 256 == |t| && forall m: nat :: m < n ==> t[m] == Entry(m as Word)
  }

  lemma FilledNext(t: seq<Word>, n: nat)
    requires FilledTo(t, n) && n < 256
    ensures FilledTo(t[n := Entry(n as Word)], n + 1)
  {
    hide Entry;
  }

  lemma Mask(x: Word)
    ensures Low(x) < 256
  {
  }

  lemma RoundTrip(y: Word)
    requires y < 256
    ensures y as nat < 256 && (y as nat) as Word == y
  {
  }

  function Index(x: Word): (i: nat)
    ensures i < 256
  {
    Mask(x);
    RoundTrip(Low(x));
    Low(x) as nat
  }

  lemma IndexIs(x: Word)
    ensures Index(x) as Word == Low(x)
  {
    Mask(x);
    RoundTrip(Low(x));
  }

  lemma Filled(t: seq<Word>, x: Word)
    requires FilledTo(t, 256)
    ensures t[Index(x)] == Entry(Low(x))
  {
    hide Entry, Index;
    IndexIs(x);
    assert t[Index(x)] == Entry(Index(x) as Word);
  }

  lemma FilledNone(t: seq<Word>)
    requires |t| == 256
    ensures FilledTo(t, 0)
  {
    hide Entry;
  }

  /** The bits of what is left of a buffer after its next byte. */
  lemma FeedByte(c: Word, buf: seq<bv8>, i: nat)
    requires i < |buf|
    ensures Feed(Feed(c, LowBits(buf[i] as Word, 8)), Bits(buf[i + 1..])) == Feed(c, Bits(buf[i..]))
  {
    hide Feed, LowBits;
    FeedAppend(c, LowBits(buf[i] as Word, 8), Bits(buf[i + 1..]));
    assert buf[i..][0] == buf[i] && buf[i..][1..] == buf[i + 1..];
  }

  lemma TableByte(t: seq<Word>, c: Word, buf: seq<bv8>, i: nat)
    requires FilledTo(t, 256) && |t| == 256 && i < |buf|
    ensures Feed(Xor(t[Index(Xor(c, buf[i] as Word))], High(c)), Bits(buf[i + 1..])) == Feed(c, Bits(buf[i..]))
  {
    hide *;
    Filled(t, Xor(c, buf[i] as Word));
    TableStep(c, buf[i]);
    FeedByte(c, buf, i);
  }

  /** The generated table, filled in when it is first asked for. */
  class CrcTable {
    const entries: array<Word>
    var empty: bool

    ghost predicate Valid()
      reads this, entries
    {
      entries.Length == 256 && (!empty ==> FilledTo(entries[..], 256))
    }

    constructor ()
      ensures Valid() && fresh(entries)
    {
      entries, empty := new Word[256], true;
    }

    /** `make_crc_table`. */
    method MakeCrcTable()
      requires entries.Length == 256
      modifies this, entries
      ensures Valid() && !empty
    {
      hide FilledTo, Steps, Entry, Step;
      var n := 0;
      FilledNone(entries[..]);
      while n < 256
        invariant n <= 256
        invariant FilledTo(entries[..], n)
      {
        var c := n as Word;
        var k: nat := 8;
        EntryIs(c, k);
        while k > 0
          invariant k <= 8
          invariant Steps(c, k) == Entry(n as Word)
          invariant FilledTo(entries[..], n)
        {
          StepsUnfold(c, k);
          StepIs(c);
          c := if c & 1 == 1 then Polynomial ^ (c >> 1) else c >> 1;
          k := k - 1;
        }
        StepsUnfold(c, k);
        FilledNext(entries[..], n);
        entries[n] := c;
        n := n + 1;
      }
      empty := false;
    }

    ghost predicate Ready()
      reads this, entries
    {
      entries.Length == 256 && FilledTo(entries[..], 256)
    }

    lemma ReadyTable()
      requires Ready()
      ensures entries.Length == 256 && FilledTo(entries[..], 256)
    {
    }

    /** `DO1`: the next byte goes through the register. */
    method Do1(c: Word, buf: seq<bv8>, i: nat) returns (c': Word)
      requires Ready() && i < |buf|
      ensures Feed(c', Bits(buf[i + 1..])) == Feed(c, Bits(buf[i..]))
    {
      hide *;
      ReadyTable();
      TableByte(entries[..], c, buf, i);
      c' := Xor(entries[Index(Xor(c, buf[i] as Word))], High(c));
    }

    method Do2(c: Word, buf: seq<bv8>, i: nat) returns (c': Word)
      requires Ready() && i + 2 <= |buf|
      ensures Feed(c', Bits(buf[i + 2..])) == Feed(c, Bits(buf[i..]))
    {
      hide *;
      c' := Do1(c, buf, i);
      c' := Do1(c', buf, i + 1);
    }

    method Do4(c: Word, buf: seq<bv8>, i: nat) returns (c': Word)
      requires Ready() && i + 4 <= |buf|
      ensures Feed(c', Bits(buf[i + 4..])) == Feed(c, Bits(buf[i..]))
    {
      hide *;
      c' := Do2(c, buf, i);
      c' := Do2(c', buf, i + 2);
    }

    method Do8(c: Word, buf: seq<bv8>, i: nat) returns (c': Word)
      requires Ready() && i + 8 <= |buf|
      ensures Feed(c', Bits(buf[i + 8..])) == Feed(c, Bits(buf[i..]))
    {
      hide *;
      c' := Do4(c, buf, i);
      c' := Do4(c', buf, i + 4);
    }

    /** `crc32`: the CRC of `buf`, going on from `crc`; a null buffer asks for the CRC of
        nothing. */
    method Crc32(crc: Word, buf: Option<seq<bv8>>) returns (r: Word)
      requires Valid()
      modifies this, entries
      ensures Valid()
      ensures buf.None? ==> r == 0
      ensures buf.Some? ==> r == Crc(crc, buf.value)
    {
      if buf.None? {
        return 0;
      }
      if empty {
        MakeCrcTable();
      }
      hide Feed, Bits, Xor, FilledTo, Step, LowBits;
      var b := buf.value;
      var c := Xor(crc, Ones);
      var i := 0;
      assert b[0..] == b;
      while |b| - i >= 8
        invariant i <= |b| && Valid() && Ready()
        invariant Feed(c, Bits(b[i..])) == Feed(Xor(crc, Ones), Bits(b))
      {
        c := Do8(c, b, i);
        i := i + 8;
      }
      while i < |b|
        invariant i <= |b| && Valid() && Ready()
        invariant Feed(c, Bits(b[i..])) == Feed(Xor(crc, Ones), Bits(b))
      {
        c := Do1(c, b, i);
        i := i + 1;
      }
      assert b[i..] == [];
      FeedNothing(c);
      r := Xor(c, Ones);
    }
  }

  lemma FeedNothing(c: Word)
    ensures Feed(c, Bits([])) == c
  {
  }

  lemma StepIs(c: Word)
    ensures Step(c) == if c & 1 == 1 then Polynomial ^ (c >> 1) else c >> 1
  {
  }

  // ----- what the checksum is for: bursts of errors

  predicate Odd(a: Word) { a & 1 == 1 }
  predicate Top(a: Word) { a >> 31 == 1 }

  lemma StepCases(a: Word)
    ensures Step(a) == if Odd(a) then Xor(Polynomial, Half(a)) else Half(a)
  {
  }

  lemma TopBits(a: Word)
    ensures !Top(Half(a)) && Top(Xor(Polynomial, Half(a)))
  {
  }

  lemma HalfOdd(a: Word, b: Word)
    requires (Odd(a) <==> Odd(b)) && Half(a) == Half(b)
    ensures a == b
  {
  }

  lemma PolyCancel(x: Word, y: Word)
    requires Xor(Polynomial, x) == Xor(Polynomial, y)
    ensures x == y
  {
  }

  /** The register loses nothing: its state can be told from its next. */
  lemma StepInjective(a: Word, b: Word)
    requires Step(a) == Step(b)
    ensures a == b
  {
    hide *;
    StepCases(a);
    StepCases(b);
    TopBits(a);
    TopBits(b);
    if Odd(a) && Odd(b) {
      PolyCancel(Half(a), Half(b));
    }
    HalfOdd(a, b);
  }

  lemma XorCancel(a: Word, b: Word, x: Word)
    requires Xor(a, x) == Xor(b, x)
    ensures a == b
  {
  }

  lemma ClockIs(c: Word, bit: bool)
    ensures Clock(c, bit) == Step(Xor(c, if bit then 1 else 0))
  {
  }

  /** A difference in the register never goes away while the message is the same. */
  lemma {:induction false} FeedInjective(c: Word, d: Word, bits: seq<bool>)
    requires Feed(c, bits) == Feed(d, bits)
    ensures c == d
    decreases |bits|
  {
    hide *;
    FeedUnfold(c, bits);
    FeedUnfold(d, bits);
    if bits != [] {
      FeedInjective(Clock(c, bits[0]), Clock(d, bits[0]), bits[1..]);
      ClockIs(c, bits[0]);
      ClockIs(d, bits[0]);
      StepInjective(Xor(c, if bits[0] then 1 else 0), Xor(d, if bits[0] then 1 else 0));
      XorCancel(c, d, if bits[0] then 1 else 0);
    }
  }

  /** The difference of two registers after a clock. */
  lemma ClockXor(c: Word, d: Word, x: bool, y: bool)
    ensures Xor(Clock(c, x), Clock(d, y)) == Step(Xor(Xor(c, d), if x == y then 0 else 1))
  {
    hide *;
    var i: Word := if x then 1 else 0;
    var j: Word := if y then 1 else 0;
    ClockIs(c, x);
    ClockIs(d, y);
    StepXor(Xor(c, i), Xor(d, j));
    XorFour(c, d, x, y);
  }

  lemma XorFour(c: Word, d: Word, x: bool, y: bool)
    ensures Xor(Xor(c, if x then 1 else 0), Xor(d, if y then 1 else 0)) == Xor(Xor(c, d), if x == y then 0 else 1)
  {
    hide *;
    XorSwap(c, d, if x then 1 else 0, if y then 1 else 0);
    XorOnes();
  }

  lemma XorSwap(c: Word, d: Word, i: Word, j: Word)
    ensures Xor(Xor(c, i), Xor(d, j)) == Xor(Xor(c, d), Xor(i, j))
  {
    hide *;
    XorAssoc(c, i, Xor(d, j));
    XorAssoc(i, d, j);
    XorComm(i, d);
    XorAssoc(d, i, j);
    XorAssoc(c, d, Xor(i, j));
  }

  lemma XorAssoc(x: Word, y: Word, z: Word)
    ensures Xor(Xor(x, y), z) == Xor(x, Xor(y, z))
  {
  }

  lemma XorComm(x: Word, y: Word)
    ensures Xor(x, y) == Xor(y, x)
  {
  }

  lemma XorOnes()
    ensures Xor(0, 0) == 0 && Xor(1, 1) == 0 && Xor(0, 1) == 1 && Xor(1, 0) == 1
  {
  }

  lemma HalfBit(w: Word, bit: bool)
    ensures Half(Xor(w, if bit then 0 else 1)) == Half(w)
  {
    hide *;
    HalfBits(w);
  }

  lemma HalfBits(w: Word)
    ensures Half(Xor(w, 0)) == Half(w) && Half(Xor(w, 1)) == Half(w)
  {
  }

  lemma {:induction false} DropSum(b: Word, m: nat, n: nat)
    ensures Drop(Drop(b, m), n) == Drop(b, m + n)
    decreases m
  {
    hide *;
    DropUnfold(b, m);
    DropUnfold(b, m + n);
    if m > 0 {
      DropSum(Half(b), m - 1, n);
    }
  }

  lemma {:induction false} DropZero(n: nat)
    ensures Drop(0, n) == 0
  {
    assert Half(0) == 0;
    hide *;
    DropUnfold(0, n);
    if n > 0 {
      DropZero(n - 1);
    }
  }

  lemma HighTop(b: Word)
    ensures Top(b) <==> Half(Half(Half(Half(Half(Half(Half(High(High(High(b)))))))))) == 1
  {
  }

  /** The top bit stays in a word for 31 shifts. */
  lemma TopStays(b: Word, n: nat)
    requires Top(b) && n <= 31
    ensures Drop(b, n) != 0
  {
    hide *;
    var eight: nat := 8;
    var h := High(High(High(b)));
    DropByte(b, eight);
    DropByte(High(b), eight);
    DropByte(High(High(b)), eight);
    DropSum(b, eight, eight);
    DropSum(b, eight + eight, eight);
    DropSum(b, 3 * eight, 7);
    DropUnfold(h, eight - 1);
    DropUnfold(Half(h), eight - 2);
    DropUnfold(Half(Half(h)), eight - 3);
    DropUnfold(Half(Half(Half(h))), eight - 4);
    DropUnfold(Half(Half(Half(Half(h)))), eight - 5);
    DropUnfold(Half(Half(Half(Half(Half(h))))), eight - 6);
    DropUnfold(Half(Half(Half(Half(Half(Half(h)))))), eight - 7);
    DropUnfold(Half(Half(Half(Half(Half(Half(Half(h))))))), eight - 8);
    HighTop(b);
    DropSum(b, n, 31 - n);
    DropZero(31 - n);
    OneZero();
  }

  lemma OneZero()
    ensures 1 as Word != 0
  {
  }

  /** Only a difference in the low bits can be undone by as many bits of message. */
  lemma {:induction false} Undone(c: Word, d: Word, x: seq<bool>, y: seq<bool>)
    requires |x| == |y| <= 32 && Feed(c, x) == Feed(d, y)
    ensures Drop(Xor(c, d), |x|) == 0
    decreases |x|
  {
    hide *;
    FeedUnfold(c, x);
    FeedUnfold(d, y);
    DropUnfold(Xor(c, d), |x|);
    if x == [] {
      XorTwice(c, d);
    } else {
      Undone(Clock(c, x[0]), Clock(d, y[0]), x[1..], y[1..]);
      ClockXor(c, d, x[0], y[0]);
      var w := Xor(Xor(c, d), if x[0] == y[0] then 0 else 1);
      HalfBit(Xor(c, d), x[0] == y[0]);
      StepCases(w);
      TopBits(w);
      if Odd(w) {
        TopStays(Step(w), |x| - 1);
      }
    }
  }

  lemma PolynomialTop(c: Word)
    ensures Step(Xor(Xor(c, c), 1)) == Polynomial && Top(Polynomial)
  {
  }

  /** Two stretches of at most 32 bits that differ take the register to different states. */
  lemma {:induction false} ShortBurst(c: Word, x: seq<bool>, y: seq<bool>)
    requires |x| == |y| <= 32 && Feed(c, x) == Feed(c, y)
    ensures x == y
    decreases |x|
  {
    hide *;
    if x != [] {
      FeedUnfold(c, x);
      FeedUnfold(c, y);
      if x[0] != y[0] {
        Undone(Clock(c, x[0]), Clock(c, y[0]), x[1..], y[1..]);
        ClockXor(c, c, x[0], y[0]);
        PolynomialTop(c);
        TopStays(Polynomial, |x| - 1);
      } else {
        ShortBurst(Clock(c, x[0]), x[1..], y[1..]);
        assert x == [x[0]] + x[1..] && y == [y[0]] + y[1..];
      }
    }
  }

  /** Two messages that differ only within 32 consecutive bits, wherever those lie among the
      bytes, have different CRCs. */
  lemma BurstDetected(crc: Word, good: seq<bv8>, bad: seq<bv8>, a: seq<bool>, x: seq<bool>, y: seq<bool>, z: seq<bool>)
    requires Bits(good) == a + x + z && Bits(bad) == a + y + z
    requires |x| == |y| <= 32 && x != y
    ensures Crc(crc, good) != Crc(crc, bad)
  {
    hide Feed, Bits, Xor;
    var c := Feed(Xor(crc, Ones), a);
    FeedAppend(Xor(crc, Ones), a + x, z);
    FeedAppend(Xor(crc, Ones), a, x);
    FeedAppend(Xor(crc, Ones), a + y, z);
    FeedAppend(Xor(crc, Ones), a, y);
    if Crc(crc, good) == Crc(crc, bad) {
      XorCancel(Feed(Xor(crc, Ones), Bits(good)), Feed(Xor(crc, Ones), Bits(bad)), Ones);
      FeedInjective(Feed(c, x), Feed(c, y), z);
      ShortBurst(c, x, y);
    }
  }

  // ----- which CRC it is

  /** The terms of the polynomial are 0, 1, 2, 4, 5, 7, 8, 10, 11, 12, 16, 22, 23 and 26 (and 32). */
  lemma Terms()
    ensures Step(1) == (1 << 31) | (1 << 30) | (1 << 29) | (1 << 27) | (1 << 26) | (1 << 24) | (1 << 23)
                       | (1 << 21) | (1 << 20) | (1 << 19) | (1 << 15) | (1 << 9) | (1 << 8) | (1 << 5)
    ensures Step(2) == 1
  {
  }

  lemma Eight(c: Word)
    ensures Steps(c, 8) == Step(Step(Step(Step(Step(Step(Step(Step(c))))))))
  {
    hide Step;
    StepsUnfold(c, 8);
    StepsUnfold(Step(c), 7);
    StepsUnfold(Step(Step(c)), 6);
    StepsUnfold(Step(Step(Step(c))), 5);
    StepsUnfold(Step(Step(Step(Step(c)))), 4);
    StepsUnfold(Step(Step(Step(Step(Step(c))))), 3);
    StepsUnfold(Step(Step(Step(Step(Step(Step(c)))))), 2);
    StepsUnfold(Step(Step(Step(Step(Step(Step(Step(c))))))), 1);
    StepsUnfold(Step(Step(Step(Step(Step(Step(Step(Step(c)))))))), 0);
  }

  /** Eight clocks, one after the other. */
  lemma EightAre(c0: Word, c1: Word, c2: Word, c3: Word, c4: Word, c5: Word, c6: Word, c7: Word, c8: Word)
    requires Step(c0) == c1 && Step(c1) == c2 && Step(c2) == c3 && Step(c3) == c4
    requires Step(c4) == c5 && Step(c5) == c6 && Step(c6) == c7 && Step(c7) == c8
    ensures Entry(c0) == c8
  {
    hide Step, Steps;
    Eight(c0);
  }

  lemma PowerEntries()
    ensures Entry(0) == 0x0 && Entry(1) == 0x77073096 && Entry(2) == 0xee0e612c && Entry(4) == 0x76dc419
    ensures Entry(8) == 0xedb8832 && Entry(16) == 0x1db71064 && Entry(32) == 0x3b6e20c8 && Entry(64) == 0x76dc4190 && Entry(128) == 0xedb88320
  {
    hide Entry;
    EightAre(0x0, 0x0, 0x0, 0x0, 0x0, 0x0, 0x0, 0x0, 0x0);
    EightAre(0x1, 0xedb88320, 0x76dc4190, 0x3b6e20c8, 0x1db71064, 0xedb8832, 0x76dc419, 0xee0e612c, 0x77073096);
    EightAre(0x2, 0x1, 0xedb88320, 0x76dc4190, 0x3b6e20c8, 0x1db71064, 0xedb8832, 0x76dc419, 0xee0e612c);
    EightAre(0x4, 0x2, 0x1, 0xedb88320, 0x76dc4190, 0x3b6e20c8, 0x1db71064, 0xedb8832, 0x76dc419);
    EightAre(0x8, 0x4, 0x2, 0x1, 0xedb88320, 0x76dc4190, 0x3b6e20c8, 0x1db71064, 0xedb8832);
    EightAre(0x10, 0x8, 0x4, 0x2, 0x1, 0xedb88320, 0x76dc4190, 0x3b6e20c8, 0x1db71064);
    EightAre(0x20, 0x10, 0x8, 0x4, 0x2, 0x1, 0xedb88320, 0x76dc4190, 0x3b6e20c8);
    EightAre(0x40, 0x20, 0x10, 0x8, 0x4, 0x2, 0x1, 0xedb88320, 0x76dc4190);
    EightAre(0x80, 0x40, 0x20, 0x10, 0x8, 0x4, 0x2, 0x1, 0xedb88320);
  }

  /** The entries of the static table at the powers of two, from which all others follow. */
  lemma StaticTable(t: seq<Word>)
    requires FilledTo(t, 256)
    ensures |t| >= 256 && t[0] == 0
    ensures t[1] == 0x77073096 && t[2] == 0xee0e612c && t[4] == 0x076dc419 && t[8] == 0x0edb8832
    ensures t[16] == 0x1db71064 && t[32] == 0x3b6e20c8 && t[64] == 0x76dc4190 && t[128] == 0xedb88320
  {
    hide Entry;
    PowerEntries();
    assert t[0] == Entry(0 as Word) && t[1] == Entry(1 as Word) && t[2] == Entry(2 as Word) && t[4] == Entry(4 as Word);
    assert t[8] == Entry(8 as Word) && t[16] == Entry(16 as Word) && t[32] == Entry(32 as Word);
    assert t[64] == Entry(64 as Word) && t[128] == Entry(128 as Word);
  }

  /** The rest of the table is made of those entries. */
  lemma EntryXor(a: Word, b: Word)
    ensures Entry(Xor(a, b)) == Xor(Entry(a), Entry(b))
  {
    StepsXor(a, b, 8);
  }

  lemma NextChar(buf: seq<bv8>, i: nat, c: Word, w: Word, e: Word, c': Word)
    requires i < |buf| && w == Low(Xor(c, buf[i] as Word)) && Entry(w) == e && c' == Xor(e, High(c))
    ensures Feed(c, Bits(buf[i..])) == Feed(c', Bits(buf[i + 1..]))
  {
    hide Entry, Feed, Bits, LowBits, Xor, Low, High;
    TableStep(c, buf[i]);
    FeedByte(c, buf, i);
  }

  lemma CheckEntries()
    ensures Entry(0xce) == 0x7cdcefb7
    ensures Entry(0x7a) == 0xb0d09822
    ensures Entry(0x1) == 0x77073096
    ensures Entry(0x19) == 0x646ba8c0
    ensures Entry(0x69) == 0x346ed9fc
    ensures Entry(0xd5) == 0xf6b9265b
    ensures Entry(0xa9) == 0xaf0a1b4c
    ensures Entry(0x58) == 0x65b0d9c6
  {
    hide Entry;
    EightAre(0xce, 0x67, 0xedb88313, 0x9b64c2a9, 0xa00ae274, 0x5005713a, 0x2802b89d, 0xf9b9df6e, 0x7cdcefb7);
    EightAre(0x7a, 0x3d, 0xedb8833e, 0x76dc419f, 0xd6d6a3ef, 0x86d3d2d7, 0xaed16a4b, 0xbad03605, 0xb0d09822);
    EightAre(0x1, 0xedb88320, 0x76dc4190, 0x3b6e20c8, 0x1db71064, 0xedb8832, 0x76dc419, 0xee0e612c, 0x77073096);
    EightAre(0x19, 0xedb8832c, 0x76dc4196, 0x3b6e20cb, 0xf00f9345, 0x95bf4a82, 0x4adfa541, 0xc8d75180, 0x646ba8c0);
    EightAre(0x69, 0xedb88314, 0x76dc418a, 0x3b6e20c5, 0xf00f9342, 0x7807c9a1, 0xd1bb67f0, 0x68ddb3f8, 0x346ed9fc);
    EightAre(0xd5, 0xedb8834a, 0x76dc41a5, 0xd6d6a3f2, 0x6b6b51f9, 0xd80d2bdc, 0x6c0695ee, 0x36034af7, 0xf6b9265b);
    EightAre(0xa9, 0xedb88374, 0x76dc41ba, 0x3b6e20dd, 0xf00f934e, 0x7807c9a7, 0xd1bb67f3, 0x856530d9, 0xaf0a1b4c);
    EightAre(0x58, 0x2c, 0x16, 0xb, 0xedb88325, 0x9b64c2b2, 0x4db26159, 0xcb61b38c, 0x65b0d9c6);
  }

  /** The check value of this CRC, that of the digits from 1 to 9. */
  lemma CheckValue()
    ensures Crc(0, [0x31, 0x32, 0x33, 0x34, 0x35, 0x36, 0x37, 0x38, 0x39]) == 0xcbf43926
  {
    hide Entry, Feed, Bits;
    CheckEntries();
    var buf: seq<bv8> := [0x31, 0x32, 0x33, 0x34, 0x35, 0x36, 0x37, 0x38, 0x39];
    NextChar(buf, 0, 0xffffffff, 0xce, 0x7cdcefb7, 0x7c231048);
    NextChar(buf, 1, 0x7c231048, 0x7a, 0xb0d09822, 0xb0acbb32);
    NextChar(buf, 2, 0xb0acbb32, 0x1, 0x77073096, 0x77b79c2d);
    NextChar(buf, 3, 0x77b79c2d, 0x19, 0x646ba8c0, 0x641c1f5c);
    NextChar(buf, 4, 0x641c1f5c, 0x69, 0x346ed9fc, 0x340ac5e3);
    NextChar(buf, 5, 0x340ac5e3, 0xd5, 0xf6b9265b, 0xf68d2c9e);
    NextChar(buf, 6, 0xf68d2c9e, 0xa9, 0xaf0a1b4c, 0xaffc9660);
    NextChar(buf, 7, 0xaffc9660, 0x58, 0x65b0d9c6, 0x651f2550);
    NextChar(buf, 8, 0x651f2550, 0x69, 0x346ed9fc, 0x340bc6d9);
    assert buf[0..] == buf && buf[9..] == [];
    NoBits(0x340bc6d9);
  }

  lemma NoBits(c: Word)
    ensures Feed(c, Bits([])) == c
  {
  }
}
