/** The run counters and the experimental scan parser of rle-parse.h. */
module RleParse {
  import opened Bytes

  /** The command kinds, in their enum order. */
  datatype RleOp = CPY | REP | LIT | NOP | INVALID

  /** A decoded command: kind and 8-bit count (`struct rle8`). */
  datatype Rle8 = Rle8(op: RleOp, cnt: uint8)

  /** `struct rle8_params`. */
  datatype Params = Params(minCpy: int, maxCpy: int, minRep: int, maxRep: int)

  /** The enum value of each command kind. */
  function Code(op: RleOp): (c: nat)
    ensures c < 5
  {
    match op
    case CPY => 0
    case REP => 1
    case LIT => 2
    case NOP => 3
    case INVALID => 4
  }

  /** `rle_op_cstr`: the name of an enum value, "UNKNOWN" for any other value. */
  function OpCstr(op: int): (name: string)
    ensures name == "UNKNOWN" <==> !(0 <= op < 5)
  {
    if op == 0 then "CPY"
    else if op == 1 then "REP"
    else if op == 2 then "LIT"
    else if op == 3 then "NOP"
    else if op == 4 then "INVALID"
    else "UNKNOWN"
  }

  /** Every command kind has its own name. */
  lemma OpNamesDistinct(a: RleOp, b: RleOp)
    ensures OpCstr(Code(a)) != "UNKNOWN"
    ensures a != b ==> OpCstr(Code(a)) != OpCstr(Code(b))
  {
  }

  // ---------------------------------------------------------------------------
  // Run counters

  /** The leading run that `rle_count_rep` measures: the longest prefix of
      bytes equal to the first, clamped to `max`. */
  function RepRun(s: seq<uint8>, max: nat): (n: nat)
    ensures n <= |s| && n <= max
    ensures n > 0 <==> (|s| > 0 && max > 0)
    ensures forall i :: 0 <= i < n ==> s[i] == s[0]
    ensures 0 < n < |s| && n < max ==> s[n] != s[0]
    decreases |s|
  {
    if |s| == 0 || max == 0 then 0
    else if |s| == 1 || max == 1 || s[0] != s[1] then 1
    else 1 + RepRun(s[1..], max - 1)
  }

  /** The leading literal run that `rle_count_cpy` measures: bytes that differ
      from their successor (the last byte always qualifies), clamped to `max`. */
  function CpyRun(s: seq<uint8>, max: nat): (n: nat)
    ensures n <= |s| && n <= max
    ensures forall i :: 0 <= i < n && i + 1 < |s| ==> DiffersFromNext(s, i)
    ensures n < |s| && n < max ==> n + 1 < |s| && s[n] == s[n + 1]
    decreases |s|
  {
    if |s| == 0 || max == 0 then 0
    else if |s| == 1 then 1
    else if s[0] == s[1] then 0
    else
      DiffersFromNextTail(s);
      1 + CpyRun(s[1..], max - 1)
  }

  /** `rle_count_rep`: reads only `src[0..len)`. */
  method CountRep(src: seq<uint8>, len: nat, max: nat) returns (cnt: nat)
    requires len <= |src|
    ensures cnt == RepRun(src[..len], max)
  {
    cnt := 0;
    if len > 0 && max > 0 {
      cnt := 1;
      while cnt + 1 <= len && cnt < max && src[cnt - 1] == src[cnt]
        invariant 1 <= cnt <= len && cnt <= max
        invariant forall i :: 0 <= i < cnt ==> src[i] == src[0]
      {
        cnt := cnt + 1;
      }
    }
  }

  /** `rle_count_cpy`: reads only `src[0..len)`. */
  method CountCpy(src: seq<uint8>, len: nat, max: nat) returns (cnt: nat)
    requires len <= |src|
    ensures cnt == CpyRun(src[..len], max)
  {
    cnt := 0;
    while cnt + 1 <= len && cnt < max && (cnt + 1 == len || src[cnt] != src[cnt + 1])
      invariant cnt <= len && cnt <= max
      invariant forall i :: 0 <= i < cnt && i + 1 < len ==> DiffersFromNext(src[..len], i)
    {
      assert cnt + 1 < len ==> DiffersFromNext(src[..len], cnt);
      cnt := cnt + 1;
    }
    CpyRunUnique(src[..len], max, cnt);
  }

  /** CpyRun is the only count that stops where `rle_count_cpy` stops: at the
      end, at the maximum, or before two equal bytes. */
  lemma {:induction false} CpyRunUnique(s: seq<uint8>, max: nat, n: nat)
    requires n <= |s| && n <= max
    requires forall i :: 0 <= i < n && i + 1 < |s| ==> DiffersFromNext(s, i)
    requires n == |s| || n == max || (n + 1 < |s| && s[n] == s[n + 1])
    ensures CpyRun(s, max) == n
    decreases |s|
  {
    if |s| >= 2 && max > 0 {
      if s[0] == s[1] {
        assert !DiffersFromNext(s, 0);
      } else {
        DiffersFromNextTail(s);
        CpyRunUnique(s[1..], max - 1, n - 1);
      }
    }
  }

  /** On a buffer of one repeated byte the repeat count is the length,
      clamped to the maximum. */
  lemma RepRunUniform(n: nat, v: uint8, max: nat)
    ensures RepRun(Repeat(n, v), max) == if n < max then n else max
  {
  }

  /** On a buffer without two equal neighbours the literal count is the
      length clamped to the maximum, and the repeat count is 1 (0 when empty). */
  lemma RunsOfDistinct(s: seq<uint8>, max: nat)
    requires forall i :: 0 <= i < |s| - 1 ==> DiffersFromNext(s, i)
    ensures CpyRun(s, max) == if |s| < max then |s| else max
    ensures |s| > 0 && max > 0 ==> RepRun(s, max) == 1
    ensures |s| == 0 ==> RepRun(s, max) == 0
  {
    CpyRunUnique(s, max, if |s| < max then |s| else max);
    if |s| > 1 {
      assert DiffersFromNext(s, 0);
    }
  }

  /** On a buffer starting with two equal bytes the literal count is 0. */
  lemma CpyRunOfPair(s: seq<uint8>, max: nat)
    requires |s| >= 2 && s[0] == s[1]
    ensures CpyRun(s, max) == 0
  {
  }

  /** The boundary cases of the unit tests: A -> 1, AB -> 2, ABB -> 1, AA -> 0 for
      the literal count; BBBBA -> 4 for the repeat count. */
  lemma CountExamples()
    ensures CpyRun([65], 128) == 1
    ensures CpyRun([65, 66], 128) == 2
    ensures CpyRun([65, 66, 66], 128) == 1
    ensures CpyRun([65, 65], 128) == 0
    ensures RepRun([66, 66, 66, 66, 65], 128) == 4
  {
    assert [65, 66, 66][1..] == [66, 66];
    assert [66, 66, 66, 66, 65][1..] == [66, 66, 66, 65];
    assert [66, 66, 66, 65][1..] == [66, 66, 65];
    assert [66, 66, 65][1..] == [66, 65];
  }

  // ---------------------------------------------------------------------------
  // parse_rle

  /** The state machine of `parse_rle`, continued from input position `i` with
      the previous byte `prev` and the counters `same` and `scan`. The result is
      the command kind and its count before the 8-bit store. */
  function Scan(s: seq<uint8>, p: Params, i: nat, prev: uint8, same: int, scan: int): (RleOp, int)
    requires i <= |s|
    decreases |s| - i
  {
    if i == |s| then
      (if same == scan && same >= p.minRep then REP else CPY, scan)
    else if s[i] != prev && same >= p.minRep then
      (REP, same)
    else
      var scan' := scan + 1;
      var same' := if s[i] == prev then same + 1 else 1;
      if same' == p.minRep && scan' != same' then (CPY, scan' - same')
      else if scan' == p.maxCpy && scan' != same' then (CPY, scan')
      else if same' == p.maxRep && scan' == same' then (REP, same')
      else Scan(s, p, i + 1, s[i], same', scan')
  }

  /** The result of `parse_rle` on the whole of `s`. With sensible limits
      it is a REP exactly when the input starts with at least `minRep`
      equal bytes, and then it covers that run up to `maxRep`; a CPY never
      counts more than `maxCpy` bytes. */
  function ParseRleSpec(s: seq<uint8>, p: Params): (r: Rle8)
    ensures 1 <= p.minRep <= p.maxRep ==>
      (r.op == REP <==> RepRun(s, |s|) >= p.minRep) &&
      (r.op == REP ==> r.cnt == ToByte(Min(RepRun(s, |s|), p.maxRep)))
    ensures 1 <= p.minRep <= p.maxRep && p.minRep <= p.maxCpy < 256 && r.op == CPY ==>
      r.cnt <= p.maxCpy
  {
    var r := Scan(s, p, 0, if |s| > 0 then s[0] else 0, 0, 0);
    if 1 <= p.minRep <= p.maxRep && p.minRep <= p.maxCpy then
      ParseRleRep(s, p);
      ParseRleCpyBound(s, p);
      ParseRleSound(s, p);
      Rle8(r.0, ToByte(r.1))
    else if 1 <= p.minRep <= p.maxRep then
      ParseRleRep(s, p);
      Rle8(r.0, ToByte(r.1))
    else
      Rle8(r.0, ToByte(r.1))
  }

  /** `parse_rle`: classifies the start of `input` as a CPY or a REP. */
  method ParseRle(input: seq<uint8>, p: Params) returns (res: Rle8)
    ensures res == ParseRleSpec(input, p)
  {
    var i := 0;
    var prev: uint8 := if |input| > 0 then input[0] else 0;
    var numSame := 0;
    var numScan := 0;
    ghost var goal := Scan(input, p, 0, prev, 0, 0);
    while i < |input|
      invariant i <= |input|
      invariant Scan(input, p, i, prev, numSame, numScan) == goal
    {
      numScan := numScan + 1;
      if input[i] == prev {
        numSame := numSame + 1;
      } else {
        if numSame >= p.minRep {
          return Rle8(REP, ToByte(numSame));
        }
        numSame := 1;
      }
      if numSame == p.minRep && numScan != numSame {
        return Rle8(CPY, ToByte(numScan - numSame));
      }
      if numScan == p.maxCpy && numScan != numSame {
        return Rle8(CPY, ToByte(numScan));
      }
      if numSame == p.maxRep && numScan == numSame {
        return Rle8(REP, ToByte(numSame));
      }
      prev := input[i];
      i := i + 1;
    }
    res := Rle8(CPY, 0);
    if numSame == numScan && numSame >= p.minRep {
      res := res.(op := REP);
    }
    res := res.(cnt := ToByte(numScan));
  }

  /** The scan state before position `i`: `scan` counts the bytes seen, the
      last `same` of them equal `prev`, and a run that has reached `minRep`
      started at the beginning. */
  ghost predicate ScanInv(s: seq<uint8>, p: Params, i: nat, prev: uint8, same: int, scan: int)
  {
    && i <= |s|
    && scan == i
    && (i == 0 ==> same == 0 && (|s| > 0 ==> prev == s[0]))
    && (i > 0 ==> 1 <= same <= scan && prev == s[i - 1])
    && (forall j :: i - same <= j < i ==> s[j] == prev)
    && (same >= p.minRep ==> same == scan)
  }

  lemma {:induction false} ScanProperties(s: seq<uint8>, p: Params, i: nat, prev: uint8, same: int, scan: int)
    requires 1 <= p.minRep <= p.maxRep
    requires ScanInv(s, p, i, prev, same, scan)
    ensures 0 <= Scan(s, p, i, prev, same, scan).1 <= |s|
    ensures Scan(s, p, i, prev, same, scan).0 == REP ==>
      var n := Scan(s, p, i, prev, same, scan).1;
      p.minRep <= n && forall j :: 0 <= j < n ==> s[j] == s[0]
    decreases |s| - i
  {
    if i < |s| && !(s[i] != prev && same >= p.minRep) {
      var scan' := scan + 1;
      var same' := if s[i] == prev then same + 1 else 1;
      if !(same' == p.minRep && scan' != same') && !(scan' == p.maxCpy && scan' != same')
         && !(same' == p.maxRep && scan' == same') {
        ScanProperties(s, p, i + 1, s[i], same', scan');
      }
    }
  }

  /** With sensible limits, a REP result covers at least `minRep` equal bytes
      at the start of the input, and no count exceeds the input length. */
  lemma ParseRleSound(s: seq<uint8>, p: Params)
    requires 1 <= p.minRep <= p.maxRep
    ensures var r := Scan(s, p, 0, if |s| > 0 then s[0] else 0, 0, 0);
      && 0 <= r.1 <= |s|
      && (r.0 == REP ==> p.minRep <= r.1 && forall j :: 0 <= j < r.1 ==> s[j] == s[0])
  {
    ScanProperties(s, p, 0, if |s| > 0 then s[0] else 0, 0, 0);
  }

  function Min(a: int, b: int): int
  {
    if a <= b then a else b
  }

  /** Along a uniform prefix of at least `minRep` bytes the scan ends in a
      REP of that prefix, cut at `maxRep`. */
  lemma {:induction false} UniformScan(s: seq<uint8>, p: Params, i: nat)
    requires 1 <= p.minRep <= p.maxRep && |s| > 0
    requires p.minRep <= RepRun(s, |s|) && i <= RepRun(s, |s|) && i < p.maxRep
    ensures Scan(s, p, i, s[0], i, i) == (REP, Min(RepRun(s, |s|), p.maxRep))
    decreases |s| - i
  {
    var u := RepRun(s, |s|);
    if i < |s| && i < u {
      assert s[i] == s[0];
      if i + 1 < p.maxRep {
        UniformScan(s, p, i + 1);
      }
    }
  }

  /** `parse_rle` returns a REP exactly when the input starts with at least
      `minRep` equal bytes, and then its count is the length of that run,
      cut at `maxRep`. */
  lemma ParseRleRep(s: seq<uint8>, p: Params)
    requires 1 <= p.minRep <= p.maxRep
    ensures var r := Scan(s, p, 0, if |s| > 0 then s[0] else 0, 0, 0);
      && (r.0 == REP <==> RepRun(s, |s|) >= p.minRep)
      && (r.0 == REP ==> r.1 == Min(RepRun(s, |s|), p.maxRep))
  {
    var u := RepRun(s, |s|);
    if u >= p.minRep {
      UniformScan(s, p, 0);
    } else {
      ParseRleSound(s, p);
    }
  }

  /** Along the scan a CPY never exceeds `maxCpy`, once that is at least
      `minRep`: the scan passes `maxCpy` only over a uniform run. */
  lemma {:induction false} ScanCpyBound(s: seq<uint8>, p: Params, i: nat, prev: uint8, same: int, scan: int)
    requires 1 <= p.minRep <= p.maxRep && p.minRep <= p.maxCpy
    requires ScanInv(s, p, i, prev, same, scan) && (scan < p.maxCpy || same == scan)
    ensures Scan(s, p, i, prev, same, scan).0 == CPY ==> Scan(s, p, i, prev, same, scan).1 <= p.maxCpy
    decreases |s| - i
  {
    if i < |s| && !(s[i] != prev && same >= p.minRep) {
      var scan' := scan + 1;
      var same' := if s[i] == prev then same + 1 else 1;
      if !(same' == p.minRep && scan' != same') && !(scan' == p.maxCpy && scan' != same')
         && !(same' == p.maxRep && scan' == same') {
        ScanCpyBound(s, p, i + 1, s[i], same', scan');
      }
    }
  }

  /** A CPY result of `parse_rle` counts at most `maxCpy` bytes. */
  lemma ParseRleCpyBound(s: seq<uint8>, p: Params)
    requires 1 <= p.minRep <= p.maxRep && p.minRep <= p.maxCpy
    ensures var r := Scan(s, p, 0, if |s| > 0 then s[0] else 0, 0, 0);
      r.0 == CPY ==> r.1 <= p.maxCpy
  {
    ScanCpyBound(s, p, 0, if |s| > 0 then s[0] else 0, 0, 0);
  }

  /** The parameter set of the unit tests: CPY 1..8, REP 3..10. */
  const TestParams := Params(1, 8, 3, 10)

  /** The unit-test table of `parse_rle` (with 'a' = 97 and 'B' = 66). */
  lemma ParseRleExamples()
    ensures ParseRleSpec([], TestParams) == Rle8(CPY, 0)
    ensures ParseRleSpec([97], TestParams) == Rle8(CPY, 1)
    ensures ParseRleSpec([97, 66], TestParams) == Rle8(CPY, 2)
    ensures ParseRleSpec([97, 66, 66], TestParams) == Rle8(CPY, 3)
    ensures ParseRleSpec([97, 66, 66, 66], TestParams) == Rle8(CPY, 1)
    ensures ParseRleSpec([97, 97], TestParams) == Rle8(CPY, 2)
    ensures ParseRleSpec([97, 97, 66], TestParams) == Rle8(CPY, 3)
    ensures ParseRleSpec([97, 97, 66, 66], TestParams) == Rle8(CPY, 4)
    ensures ParseRleSpec([97, 97, 66, 66, 66], TestParams) == Rle8(CPY, 2)
  {
  }

  /** The rows of the same table that end in a REP or at a limit. */
  lemma ParseRleLimitExamples()
    ensures ParseRleSpec([97, 97, 97], TestParams) == Rle8(REP, 3)
    ensures ParseRleSpec([97, 97, 97, 66], TestParams) == Rle8(REP, 3)
    ensures ParseRleSpec([97, 97, 66, 66, 97, 97, 66, 66, 97, 97], TestParams) == Rle8(CPY, 8)
    ensures ParseRleSpec([97, 97, 97, 97, 97, 97, 97, 97, 97, 97], TestParams) == Rle8(REP, 10)
  {
  }
}
