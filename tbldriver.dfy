/** The size pass of the table-driven encoder (rle-tbldriver.c): the input is
    split into REP and CPY commands by the run counters, each command's op
    byte is looked up in the variant's encode tables, and the output size is
    accounted two bytes per REP and one more than its count per CPY. */
module Tbldriver {
  import opened Bytes
  import opened Cmds
  import RleParse
  import Packbits
  import Genops
  import opened Runs

  /** `struct rle8_tbl` as the size pass uses it: the encode tables for CPY
      and REP, indexed by count, with -1 for a count the variant cannot
      express, and the count limits of each command. */
  datatype Tbl = Tbl(name: string, encodeLen: nat, cpyOps: seq<int>, repOps: seq<int>,
                     minCpy: nat, maxCpy: nat, minRep: nat, maxRep: nat)

  /** `rle8_table_packbits`: CPY of 1..128 is `cnt - 1`, REP of 2..128 is
      `257 - cnt` (0xFF down to 0x81); the limits are CPY 1..128 and REP
      2..128. */
  const PackbitsTable: Tbl :=
    Tbl("packbits", 129,
        seq(129, c => if c == 0 then -1 else c - 1),
        seq(129, c => if c < 2 then -1 else 257 - c),
        1, 128, 2, 128)

  /** The tables the size pass can run on without tripping its asserts:
      every count within the limits indexes the tables and has an op byte.
      A minimum REP of at least 1 makes every REP step advance. */
  predicate ValidTable(t: Tbl)
  {
    && 1 <= t.minRep
    && |t.cpyOps| == t.encodeLen && |t.repOps| == t.encodeLen
    && t.maxRep < t.encodeLen && t.maxCpy < t.encodeLen
    && (forall c :: t.minRep <= c <= t.maxRep ==> t.repOps[c] > -1)
    && (forall c :: t.minCpy <= c <= t.maxCpy ==> t.cpyOps[c] > -1)
  }

  /** The PackBits table is usable, has -1 exactly at the counts PackBits
      cannot express, and its op bytes are those of packbits_compress and of
      `rle8_encode_packbits`. */
  lemma PackbitsTableOps()
    ensures ValidTable(PackbitsTable)
    ensures PackbitsTable.cpyOps[0] == -1
    ensures PackbitsTable.repOps[0] == -1 && PackbitsTable.repOps[1] == -1
    ensures forall c :: 1 <= c <= 128 ==>
      PackbitsTable.cpyOps[c] == c - 1 == Genops.EncodePackbits(Genops.Rle8(Genops.CPY, c))
    ensures forall c :: 2 <= c <= 128 ==>
      PackbitsTable.repOps[c] == Packbits.RepOp(c) == Genops.EncodePackbits(Genops.Rle8(Genops.REP, c))
  {
  }

  lemma PackbitsValid()
    ensures ValidTable(PackbitsTable)
  {
    PackbitsTableOps();
  }

  /** How a size pass ends: the accounted size, the CPY below the minimum
      (-2), or the bail-out (-3). */
  datatype Outcome = Done(size: nat) | MinCpyFail | Stalled

  /** The C return value of an outcome. */
  function Status(o: Outcome): int
  {
    match o
    case Done(_) => 0
    case MinCpyFail => -2
    case Stalled => -3
  }

  /** `n` more bytes in front of an outcome. */
  function Plus(n: nat, o: Outcome): (r: Outcome)
    ensures Status(r) == Status(o)
    ensures o.Done? ==> r == Done(n + o.size)
  {
    match o
    case Done(k) => Done(n + k)
    case _ => o
  }

  /** What `rle_count_rep` returns on `src + rp` with length `slen - rp`:
      the bytes from `rp` on that equal the byte at `rp`, at least 1 and at
      most `max`, or 0 when no input or no count is left. */
  function RepAt(src: seq<uint8>, rp: nat, max: nat): (n: nat)
    ensures n <= max && rp + n <= |src| + (if rp >= |src| then rp - |src| else 0)
    ensures n == 0 <==> rp >= |src| || max == 0
  {
    if rp >= |src| || max == 0 then 0 else EqualPairs(src, rp, max - 1) + 1
  }

  /** RepAt is `rle_count_rep` applied from `rp`. */
  lemma RepAtIsRepRun(src: seq<uint8>, rp: nat, max: nat)
    requires rp <= |src|
    ensures RepAt(src, rp, max) == RleParse.RepRun(src[rp..], max)
  {
    if rp < |src| && max > 0 {
      EqualPairsRun(src, rp, max - 1);
    }
  }

  /** What `rle_table_encode` does from `rp` on with `bail` CPY steps left.
      When every CPY takes at least one byte, a finished pass accounts at
      most two output bytes per input byte. */
  function WalkAt(t: Tbl, s: seq<uint8>, rp: nat, bail: nat): (r: Outcome)
    requires ValidTable(t) && bail >= 1
    ensures r.Done? && t.minCpy >= 1 && rp <= |s| ==> r.size <= 2 * (|s| - rp)
    decreases bail, |s| - rp, 1
  {
    if rp >= |s| then Done(0) else WalkFrom(t, s, rp, bail)
  }

  /** One command of `rle_table_encode` at `rp`, then the rest: a REP when
      the repeat count (stored in `uint8_t`) reaches the minimum, else a CPY
      of the literal count, failing when that is below the minimum. Only
      CPY steps count towards the bail-out. */
  function WalkFrom(t: Tbl, s: seq<uint8>, rp: nat, bail: nat): (r: Outcome)
    requires ValidTable(t) && bail >= 1 && rp < |s|
    ensures r.Done? && t.minCpy >= 1 ==> r.size <= 2 * (|s| - rp)
    decreases bail, |s| - rp, 0
  {
    var rep := ToByte(RepAt(s, rp, t.maxRep));
    if rep >= t.minRep then Plus(2, WalkAt(t, s, rp + rep, bail))
    else
      var cpy := ToByte(LiteralRun(s, rp, t.maxCpy));
      if cpy < t.minCpy then MinCpyFail
      else if bail == 1 then Stalled
      else Plus(cpy + 1, WalkAt(t, s, rp + cpy, bail - 1))
  }

  /** On a table with the PackBits limits the size pass takes the commands of
      packbits_compress: it accounts their framed size, unless they hold at
      least `bail` CPY commands. */
  lemma {:induction false} WalkPackbits(t: Tbl, s: seq<uint8>, rp: nat, bail: nat)
    requires ValidTable(t) && PackbitsLimits(t) && bail >= 1
    ensures var cmds := Packbits.CommandsAt(s, rp);
      WalkAt(t, s, rp, bail) == if CpyCount(cmds) >= bail then Stalled else Done(TotalSize(cmds))
    decreases |s| - rp
  {
    if rp < |s| {
      PackbitsChoice(s, rp);
      WalkStep(t, s, rp, bail);
      var rep := ToByte(RepAt(s, rp, 128));
      if rep >= 2 {
        WalkPackbits(t, s, rp + rep, bail);
      } else if bail > 1 {
        WalkPackbits(t, s, rp + ToByte(LiteralRun(s, rp, 128)), bail - 1);
      }
    }
  }

  /** The count limits of PackBits: CPY 1..128, REP 2..128. */
  predicate PackbitsLimits(t: Tbl)
  {
    t.minCpy == 1 && t.maxCpy == 128 && t.minRep == 2 && t.maxRep == 128
  }

  /** WalkAt one command at a time. */
  lemma WalkStep(t: Tbl, s: seq<uint8>, rp: nat, bail: nat)
    requires ValidTable(t) && bail >= 1 && rp < |s|
    ensures var rep := ToByte(RepAt(s, rp, t.maxRep));
      rep >= t.minRep ==> WalkAt(t, s, rp, bail) == Plus(2, WalkAt(t, s, rp + rep, bail))
    ensures var rep := ToByte(RepAt(s, rp, t.maxRep));
      var cpy := ToByte(LiteralRun(s, rp, t.maxCpy));
      rep < t.minRep ==>
        WalkAt(t, s, rp, bail) ==
          if cpy < t.minCpy then MinCpyFail
          else if bail == 1 then Stalled
          else Plus(cpy + 1, WalkAt(t, s, rp + cpy, bail - 1))
  {
  }

  /** At each position the PackBits table selects the command of
      packbits_compress. */
  lemma PackbitsChoice(s: seq<uint8>, rp: nat)
    requires rp < |s|
    ensures var cmds := Packbits.CommandsAt(s, rp);
      var rep := ToByte(RepAt(s, rp, 128));
      var cpy := ToByte(LiteralRun(s, rp, 128));
      && |cmds| > 0
      && (rep >= 2 ==> cmds[0].Rep? && Size(cmds[0]) == 2 && cmds[1..] == Packbits.CommandsAt(s, rp + rep))
      && (rep < 2 ==> cmds[0].Cpy? && cpy >= 1 && Size(cmds[0]) == cpy + 1 &&
                      cmds[1..] == Packbits.CommandsAt(s, rp + cpy))
  {
    var c := Packbits.FirstAt(s, rp);
    var rest := Packbits.CommandsAt(s, rp + Len(c));
    Packbits.CommandsStep(s, rp);
    assert ([c] + rest)[1..] == rest;
  }

  /** The size pass over PackBits succeeds with the length packbits_compress
      produces, unless the input needs 8192 CPY commands or more. It never
      reports the CPY minimum as failed. */
  lemma PackbitsSizePass(s: seq<uint8>)
    ensures ValidTable(PackbitsTable)
    ensures WalkAt(PackbitsTable, s, 0, 8192) ==
      if CpyCount(Packbits.Commands(s)) >= 8192 then Stalled else Done(|Packbits.Encode(s)|)
  {
    PackbitsValid();
    WalkPackbits(PackbitsTable, s, 0, 8192);
  }

  /** The do-while loop of `rle_count_rep` on `src + rp`. */
  method CountRepAt(src: seq<uint8>, rp: nat, max: nat) returns (cnt: nat)
    requires rp <= |src|
    ensures cnt == RepAt(src, rp, max)
  {
    var len := |src| - rp;
    cnt := 0;
    if len > 0 && max > 0 {
      cnt := 1;
      while cnt + 1 <= len && cnt < max && src[rp + cnt - 1] == src[rp + cnt]
        invariant 1 <= cnt <= len && cnt <= max
        invariant EqualPairs(src, rp, max - 1) == cnt - 1 + EqualPairs(src, rp + cnt - 1, max - cnt)
      {
        cnt := cnt + 1;
      }
    }
  }

  /** `rle_table_encode`, its printing left out: returns 0, -2 or -3 as
      its walk ends, and the size `wp` it accounts (the value it prints on
      success). The asserts of the source hold. */
  method TableEncode(t: Tbl, src: seq<uint8>) returns (status: int, wp: nat)
    requires ValidTable(t)
    ensures status == Status(WalkAt(t, src, 0, 8192))
    ensures status == 0 ==> wp == WalkAt(t, src, 0, 8192).size
  {
    ghost var whole := WalkAt(t, src, 0, 8192);
    var rp := 0;
    wp := 0;
    var bailout := 8192;
    while rp < |src|
      invariant rp <= |src| && 1 <= bailout <= 8192
      invariant whole == Plus(wp, WalkAt(t, src, rp, bailout))
      decreases bailout, |src| - rp
    {
      var run := CountRepAt(src, rp, t.maxRep);
      var cnt := ToByte(run);
      if cnt >= t.minRep {
        assert cnt < t.encodeLen;
        var op := t.repOps[cnt];
        assert op > -1;
        rp := rp + cnt;
        wp := wp + 2;
        continue;
      }
      run := ScanLiterals(src, rp, t.maxCpy);
      cnt := ToByte(run);
      if cnt >= t.minCpy {
        assert cnt < t.encodeLen;
        var op := t.cpyOps[cnt];
        assert op > -1;
        rp := rp + cnt;
        wp := wp + cnt + 1;
      } else {
        return -2, wp;
      }
      bailout := bailout - 1;
      if bailout == 0 {
        return -3, wp;
      }
    }
    return 0, wp;
  }
}
