/** Runs of equal code lengths, as sequences and in an array. */
module Runs {

  /** `n` copies of `x`. */
  function Repeat(x: nat, n: nat): (r: seq<nat>)
    ensures |r| == n
  {
    seq(n, _ => x)
  }

  lemma RepeatSize(x: nat, n: nat)
    ensures |Repeat(x, n)| == n
  {
  }

  lemma RepeatLast(x: nat, n: nat)
    requires n > 0
    ensures |Repeat(x, n)| == n && Repeat(x, n)[n - 1] == x
  {
  }

  /** `while (j--) ll[i++] = l` */
  method Fill(ll: array<nat>, i: nat, x: nat, times: nat)
    requires i + times <= ll.Length
    modifies ll
    ensures ll[..i + times] == old(ll[..i]) + Repeat(x, times)
  {
    var k := 0;
    while k < times
      invariant 0 <= k <= times
      invariant ll[..i + k] == old(ll[..i]) + Repeat(x, k)
    {
      ll[i + k] := x;
      k := k + 1;
      assert ll[..i + k] == ll[..i + (k - 1)] + [x];
    }
  }
}
