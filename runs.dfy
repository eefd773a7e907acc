/** The inner counting loops the compressors run at their read cursor,
    stated on the whole input and an index, and tied to the stand-alone
    counters `rle_count_rep` and `rle_count_cpy`. */
module Runs {
  import opened Bytes
  import RleParse

  /** How many bytes in a row, from `i` on, equal their successor, stopping at
      `max` (the REP scans of goldbox_compress and packbits_compress). */
  function EqualPairs(src: seq<uint8>, i: nat, max: nat): (n: nat)
    ensures n <= max
    ensures n > 0 ==> i + n < |src|
    decreases |src| - i
  {
    if max == 0 || i + 1 >= |src| || src[i] != src[i + 1] then 0
    else 1 + EqualPairs(src, i + 1, max - 1)
  }

  /** How many bytes in a row, from `i` on, are either the last byte or differ
      from their successor, stopping at `max` (the literal scan of
      packbits_compress). */
  function LiteralRun(src: seq<uint8>, i: nat, max: nat): (n: nat)
    ensures n <= max
    ensures n > 0 ==> i + n <= |src|
    decreases |src| - i
  {
    if max == 0 || i >= |src| || (i + 1 < |src| && src[i] == src[i + 1]) then 0
    else 1 + LiteralRun(src, i + 1, max - 1)
  }

  /** EqualPairs only counts bytes equal to the one at `i`. */
  lemma {:induction false} EqualPairsUniform(src: seq<uint8>, i: nat, max: nat)
    requires i < |src|
    ensures forall k :: i <= k <= i + EqualPairs(src, i, max) ==> src[k] == src[i]
    decreases |src| - i
  {
    if EqualPairs(src, i, max) > 0 {
      EqualPairsUniform(src, i + 1, max - 1);
    }
  }

  /** One more than EqualPairs is the repeat count `rle_count_rep` measures
      from `i` with a maximum one higher. */
  lemma {:induction false} EqualPairsRun(src: seq<uint8>, i: nat, max: nat)
    requires i < |src|
    ensures EqualPairs(src, i, max) + 1 == RleParse.RepRun(src[i..], max + 1)
    decreases |src| - i
  {
    if max > 0 && i + 1 < |src| && src[i] == src[i + 1] {
      EqualPairsRun(src, i + 1, max - 1);
      assert src[i..][1..] == src[i + 1..];
    }
  }

  /** LiteralRun is `rle_count_cpy` applied from `i`. */
  lemma {:induction false} LiteralRunIsCpyRun(src: seq<uint8>, i: nat, max: nat)
    requires i <= |src|
    ensures LiteralRun(src, i, max) == RleParse.CpyRun(src[i..], max)
    decreases |src| - i
  {
    if max > 0 && i < |src| && !(i + 1 < |src| && src[i] == src[i + 1]) {
      LiteralRunIsCpyRun(src, i + 1, max - 1);
      var s := src[i..];
      assert s[1..] == src[i + 1..];
      if |s| >= 2 {
        assert DiffersFromNext(s, 0);
      }
      DiffersFromNextTail(s);
    }
  }

  /** LiteralRun only counts bytes that are last or differ from their
      successor. */
  lemma {:induction false} LiteralRunDistinct(src: seq<uint8>, i: nat, max: nat)
    ensures forall k :: i <= k < i + LiteralRun(src, i, max) ==>
      k + 1 == |src| || DiffersFromNext(src, k)
    decreases |src| - i
  {
    if LiteralRun(src, i, max) > 0 {
      LiteralRunDistinct(src, i + 1, max - 1);
    }
  }

  /** The REP scan loop: the bytes from `rp` on that equal their successor,
      up to `max`. */
  method ScanEqual(src: seq<uint8>, rp: nat, max: nat) returns (cnt: nat)
    requires rp < |src|
    ensures cnt == EqualPairs(src, rp, max)
  {
    cnt := 0;
    while rp + cnt + 1 < |src| && src[rp + cnt] == src[rp + cnt + 1] && cnt < max
      invariant cnt <= max && rp + cnt < |src|
      invariant EqualPairs(src, rp, max) == cnt + EqualPairs(src, rp + cnt, max - cnt)
    {
      cnt := cnt + 1;
    }
  }

  /** The literal scan loop of packbits_compress: the bytes from `rp` on
      that are last or differ from their successor, up to `max`. */
  method ScanLiterals(src: seq<uint8>, rp: nat, max: nat) returns (cnt: nat)
    requires rp <= |src|
    ensures cnt == LiteralRun(src, rp, max)
    ensures rp < |src| && max > 0 && (rp + 1 == |src| || src[rp] != src[rp + 1]) ==> cnt >= 1
  {
    cnt := 0;
    while rp + cnt + 1 <= |src| && cnt < max && (rp + cnt + 1 == |src| || src[rp + cnt] != src[rp + cnt + 1])
      invariant cnt <= max && rp + cnt <= |src|
      invariant LiteralRun(src, rp, max) == cnt + LiteralRun(src, rp + cnt, max - cnt)
    {
      cnt := cnt + 1;
    }
  }
}
