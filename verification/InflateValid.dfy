/** What `inflate` makes of valid streams. */
module InflateValid {
  import opened Bits
  import opened BitStream
  import opened Rfc1951
  import opened Rfc1951Strict
  import opened InflateBlocks

  /** A valid deflate stream whose distances stay within its own output, followed by fourteen more
      bits, is always inflated; without them it is inflated exactly if no look-up passes the end of
      the member.  In any case it is only ever inflated to its own output: whatever was in the
      window before has no part in it. */
  lemma ValidInflated(input: seq<Byte>, pre: seq<Byte>, r: nat, out: seq<Byte>, pos: nat, taken: nat)
    requires Refines(input, pre, r, out, pos, taken) && ValidStream(input, 0, [], 0).Done?
    ensures var o := ValidStream(input, 0, [], 0);
            && (r == 0 <==> o.peek <= BitLen(input))
            && (r == 0 ==> o.hist == out && o.pos == pos && taken == ByteBoundary(Max(o.pos, o.peek)))
            && (o.pos + 14 <= BitLen(input) ==> r == 0 && taken <= ByteBoundary(o.pos + 14))
  {
    hide ValidStream, Stream, Refines;
    StreamAgrees(input, 0, [], 0);
    InflateCorrect(input, pre, r, out, pos, taken);
  }
}
