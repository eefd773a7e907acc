/** The PackBits variant (rle_packbits.h, Apple TN1023). An op byte above 0x80
    is a REP of `257 - b` copies of the next byte, one below 0x80 a CPY of the
    `b + 1` literal bytes that follow it; 0x80 is reserved and skipped. */
module Packbits {
  import opened Bytes
  import opened Cmds
  import RleParse
  import opened Runs

  // ---------------------------------------------------------------------------
  // The compressor's choice of commands

  /** The command packbits_compress emits at `rp`: a REP when at least two
      bytes in a row are equal (up to 128), else a CPY of the bytes the
      literal scan takes (up to 128). */
  function FirstAt(src: seq<uint8>, rp: nat): (c: Cmd)
    requires rp < |src|
    ensures (c.Rep? && 2 <= c.count <= 128 && c.value == src[rp]) || (c.Cpy? && 1 <= |c.lits| <= 128)
    ensures rp + Len(c) <= |src|
  {
    var pairs := EqualPairs(src, rp, 127);
    if pairs > 0 then Rep(pairs + 1, src[rp])
    else Cpy(src[rp..rp + LiteralRun(src, rp, 128)])
  }

  /** The commands packbits_compress emits for `src[rp..]`. */
  function CommandsAt(src: seq<uint8>, rp: nat): seq<Cmd>
    decreases |src| - rp, 1
  {
    if rp >= |src| then [] else CommandsFrom(src, rp)
  }

  /** The commands from `rp` on, with input left at `rp`: the one chosen
      there, then the rest. */
  function CommandsFrom(src: seq<uint8>, rp: nat): seq<Cmd>
    requires rp < |src|
    decreases |src| - rp, 0
  {
    var c := FirstAt(src, rp);
    [c] + CommandsAt(src, rp + Len(c))
  }

  function Commands(s: seq<uint8>): seq<Cmd>
  {
    CommandsAt(s, 0)
  }

  // ---------------------------------------------------------------------------
  // Framing

  /** The counts a PackBits op byte can express. */
  predicate Framable(c: Cmd)
  {
    match c
    case Rep(n, _) => 2 <= n <= 128
    case Cpy(l) => 1 <= |l| <= 128
    case Lit(_) => false
  }

  /** The REP op byte of a count 2..128: `257 - cnt`, 0x81..0xFF. */
  function RepOp(n: nat): (b: uint8)
    requires 2 <= n <= 128
    ensures b > 0x80
  {
    257 - n
  }

  /** The count of a REP op byte above 0x80: `257 - b`, 2..128. */
  function RepCount(b: uint8): (n: nat)
    requires b > 0x80
    ensures 2 <= n <= 128
  {
    257 - b
  }

  /** RepOp and RepCount undo each other, and neither a REP nor a CPY op is
      the reserved byte 0x80. */
  lemma RepOpInverse(n: nat, b: uint8)
    requires 2 <= n <= 128 && b > 0x80
    ensures RepCount(RepOp(n)) == n && RepOp(RepCount(b)) == b
    ensures RepOp(n) != 0x80 && n - 1 < 0x80
  {
  }

  /** Wire form of one command: a REP is its op byte and the repeated byte,
      a CPY the op byte `cnt - 1` and the literals. */
  function FrameCmd(c: Cmd): (r: seq<uint8>)
    requires Framable(c)
    ensures |r| == Size(c)
  {
    match c
    case Rep(n, v) => [RepOp(n), v]
    case Cpy(l) => [|l| - 1] + l
  }

  predicate AllFramable(cmds: seq<Cmd>)
    decreases |cmds|
  {
    cmds == [] || (Framable(cmds[0]) && AllFramable(cmds[1..]))
  }

  function Frame(cmds: seq<Cmd>): (r: seq<uint8>)
    requires AllFramable(cmds)
    ensures |r| == TotalSize(cmds)
    decreases |cmds|
  {
    if cmds == [] then [] else FrameCmd(cmds[0]) + Frame(cmds[1..])
  }

  /** What packbits_compress produces for `src[rp..]`: the framing of its
      commands. */
  function EncodeAt(src: seq<uint8>, rp: nat): (r: seq<uint8>)
    ensures |r| == TotalSize(CommandsAt(src, rp))
  {
    CommandsInLimits(src, rp);
    Frame(CommandsAt(src, rp))
  }

  /** What packbits_compress produces: 2 bytes per REP and one more than
      its length per CPY. */
  function Encode(s: seq<uint8>): (r: seq<uint8>)
    ensures |r| == TotalSize(Commands(s))
  {
    EncodeAt(s, 0)
  }

  // ---------------------------------------------------------------------------
  // Decoding

  /** Streams packbits_decompress reads without running past their end and
      that it consumes exactly: every REP op has its byte, every CPY op all of
      its literals, every 0x80 the byte it skips. */
  predicate WellFormedAt(e: seq<uint8>, rp: nat)
    decreases |e| - rp
  {
    rp >= |e| ||
    if e[rp] >= 0x80 then rp + 2 <= |e| && WellFormedAt(e, rp + 2)
    else rp + e[rp] + 2 <= |e| && WellFormedAt(e, rp + e[rp] + 2)
  }

  /** What packbits_decompress produces from `e[rp..]`: an op `b > 0x80`
      stands for `257 - b` copies of the next byte, `b < 0x80` for the `b + 1`
      bytes after it, and 0x80 for nothing, skipping two bytes. */
  function DecodeAt(e: seq<uint8>, rp: nat): seq<uint8>
    requires WellFormedAt(e, rp)
    decreases |e| - rp
  {
    if rp >= |e| then []
    else if e[rp] > 0x80 then Repeat(RepCount(e[rp]), e[rp + 1]) + DecodeAt(e, rp + 2)
    else if e[rp] < 0x80 then e[rp + 1..rp + e[rp] + 2] + DecodeAt(e, rp + e[rp] + 2)
    else DecodeAt(e, rp + 2)
  }

  predicate WellFormed(e: seq<uint8>)
  {
    WellFormedAt(e, 0)
  }

  function Decode(e: seq<uint8>): (r: seq<uint8>)
    requires WellFormed(e)
    ensures |r| <= 64 * |e|
  {
    DecodeSize(e, 0);
    DecodeAt(e, 0)
  }

  /** Each op byte and the bytes it takes stand for at most 64 output bytes
      per input byte. */
  lemma {:induction false} DecodeSize(e: seq<uint8>, rp: nat)
    requires WellFormedAt(e, rp) && rp <= |e|
    ensures |DecodeAt(e, rp)| <= 64 * (|e| - rp)
    decreases |e| - rp
  {
    if rp < |e| {
      if e[rp] >= 0x80 {
        DecodeSize(e, rp + 2);
      } else {
        DecodeSize(e, rp + e[rp] + 2);
      }
    }
  }

  // ---------------------------------------------------------------------------
  // What the compressor's commands are

  /** Each command stands for exactly the input bytes it covers. */
  lemma FirstCovers(src: seq<uint8>, rp: nat)
    requires rp < |src|
    ensures ExpandCmd(FirstAt(src, rp)) == src[rp..rp + Len(FirstAt(src, rp))]
    ensures src[rp..] == ExpandCmd(FirstAt(src, rp)) + src[rp + Len(FirstAt(src, rp))..]
  {
    var c := FirstAt(src, rp);
    if c.Rep? {
      EqualPairsUniform(src, rp, 127);
    }
    assert src[rp..] == src[rp..rp + Len(c)] + src[rp + Len(c)..];
  }

  /** The command at `rp` is the one the counters `rle_count_rep` and
      `rle_count_cpy` (maximum 128) select: a REP of the repeat count when it
      is at least 2, else a CPY of the literal count. So a single byte is
      never a REP, and a CPY stops before a byte equal to its successor. */
  lemma FirstIsMaximal(src: seq<uint8>, rp: nat)
    requires rp < |src|
    ensures var r := RleParse.RepRun(src[rp..], 128);
      FirstAt(src, rp) == if r >= 2 then Rep(r, src[rp])
                          else Cpy(src[rp..rp + RleParse.CpyRun(src[rp..], 128)])
    ensures FirstAt(src, rp).Cpy? ==>
      forall k :: rp <= k < rp + |FirstAt(src, rp).lits| ==> k + 1 == |src| || DiffersFromNext(src, k)
  {
    EqualPairsRun(src, rp, 127);
    LiteralRunIsCpyRun(src, rp, 128);
    LiteralRunDistinct(src, rp, 128);
  }

  /** CommandsAt covers the input exactly. */
  lemma {:induction false} CommandsCover(src: seq<uint8>, rp: nat)
    requires rp <= |src|
    ensures Expand(CommandsAt(src, rp)) == src[rp..]
    decreases |src| - rp
  {
    if rp < |src| {
      var c := FirstAt(src, rp);
      CommandsCover(src, rp + Len(c));
      CommandsStep(src, rp);
      FirstCovers(src, rp);
      ExpandCons(c, CommandsAt(src, rp + Len(c)));
    }
  }

  /** CommandsAt one command at a time. */
  lemma CommandsStep(src: seq<uint8>, rp: nat)
    requires rp < |src|
    ensures var c := FirstAt(src, rp);
      CommandsAt(src, rp) == [c] + CommandsAt(src, rp + Len(c))
  {
  }

  /** Every command respects the limits REP 2..128 and CPY 1..128. */
  lemma {:induction false} CommandsInLimits(src: seq<uint8>, rp: nat)
    ensures AllFramable(CommandsAt(src, rp))
    decreases |src| - rp
  {
    if rp < |src| {
      var c := FirstAt(src, rp);
      var rest := CommandsAt(src, rp + Len(c));
      CommandsInLimits(src, rp + Len(c));
      CommandsStep(src, rp);
      assert ([c] + rest)[1..] == rest;
    }
  }

  /** The compressor's output one command at a time. */
  lemma EncodeStep(src: seq<uint8>, rp: nat)
    requires rp < |src|
    ensures var c := FirstAt(src, rp);
      Framable(c) && EncodeAt(src, rp) == FrameCmd(c) + EncodeAt(src, rp + Len(c))
  {
    var c := FirstAt(src, rp);
    var rest := CommandsAt(src, rp + Len(c));
    CommandsStep(src, rp);
    CommandsInLimits(src, rp + Len(c));
    assert ([c] + rest)[1..] == rest;
  }

  /** The input "ABBCCCDDDDEEEEE". */
  const ExampleInput: seq<uint8> :=
    [0x41, 0x42, 0x42, 0x43, 0x43, 0x43, 0x44, 0x44, 0x44, 0x44, 0x45, 0x45, 0x45, 0x45, 0x45]

  /** The scans of packbits_compress at each command start of ExampleInput. */
  lemma ExampleScans()
    ensures EqualPairs(ExampleInput, 0, 127) == 0 && LiteralRun(ExampleInput, 0, 128) == 1
    ensures EqualPairs(ExampleInput, 1, 127) == 1
    ensures EqualPairs(ExampleInput, 3, 127) == 2
    ensures EqualPairs(ExampleInput, 6, 127) == 3
    ensures EqualPairs(ExampleInput, 10, 127) == 4
  {
    var s := ExampleInput;
    assert LiteralRun(s, 1, 127) == 0;
    assert EqualPairs(s, 2, 126) == 0;
    assert EqualPairs(s, 5, 125) == 0 && EqualPairs(s, 4, 126) == 1;
    assert EqualPairs(s, 9, 124) == 0 && EqualPairs(s, 8, 125) == 1 && EqualPairs(s, 7, 126) == 2;
    assert EqualPairs(s, 14, 123) == 0 && EqualPairs(s, 13, 124) == 1;
    assert EqualPairs(s, 12, 125) == 2 && EqualPairs(s, 11, 126) == 3;
  }

  /** "ABBCCCDDDDEEEEE" compresses to 00 41 FF 42 FE 43 FD 44 FC 45, 10 bytes. */
  lemma Example()
    ensures Encode(ExampleInput) == [0x00, 0x41, 0xFF, 0x42, 0xFE, 0x43, 0xFD, 0x44, 0xFC, 0x45]
  {
    var s := ExampleInput;
    ExampleScans();
    assert FirstAt(s, 0) == Cpy([0x41]);
    assert FirstAt(s, 1) == Rep(2, 0x42);
    assert FirstAt(s, 3) == Rep(3, 0x43);
    assert FirstAt(s, 6) == Rep(4, 0x44);
    assert FirstAt(s, 10) == Rep(5, 0x45);
    EncodeStep(s, 0);
    EncodeStep(s, 1);
    EncodeStep(s, 3);
    EncodeStep(s, 6);
    EncodeStep(s, 10);
    assert EncodeAt(s, 15) == [];
  }

  // ---------------------------------------------------------------------------
  // Round trip

  /** Decoding does not depend on what precedes the stream. */
  lemma {:induction false} DecodeShiftAt(e: seq<uint8>, off: nat, q: seq<uint8>, i: nat)
    requires off + |q| == |e| && i <= |q|
    requires forall j :: 0 <= j < |q| ==> e[off + j] == q[j]
    ensures WellFormedAt(e, off + i) == WellFormedAt(q, i)
    ensures WellFormedAt(q, i) ==> DecodeAt(e, off + i) == DecodeAt(q, i)
    decreases |q| - i
  {
    if i < |q| {
      var k := off + i;
      assert e[k] == q[i];
      var n := if q[i] >= 0x80 then 2 else q[i] + 2;
      if i + n <= |q| {
        DecodeShiftAt(e, off, q, i + n);
        assert k + n == off + (i + n);
        if q[i] >= 0x80 {
          assert e[k + 1] == q[i + 1];
        } else {
          assert e[k + 1..k + n] == q[i + 1..i + n];
        }
      }
    }
  }

  lemma DecodeShift(p: seq<uint8>, q: seq<uint8>, i: nat)
    requires i <= |q|
    ensures WellFormedAt(p + q, |p| + i) == WellFormedAt(q, i)
    ensures WellFormedAt(q, i) ==> DecodeAt(p + q, |p| + i) == DecodeAt(q, i)
  {
    DecodeShiftAt(p + q, |p|, q, i);
  }

  /** One framed command in front of a well-formed stream decodes to its
      expansion followed by the stream's decoding. */
  lemma DecodeFrameCmd(c: Cmd, rest: seq<uint8>)
    requires Framable(c) && WellFormed(rest)
    ensures WellFormed(FrameCmd(c) + rest)
    ensures Decode(FrameCmd(c) + rest) == ExpandCmd(c) + Decode(rest)
  {
    var f := FrameCmd(c);
    DecodeShift(f, rest, 0);
    match c
    case Rep(n, v) =>
    case Cpy(l) =>
      assert (f + rest)[1..|l| + 1] == l;
  }

  /** Decoding the framing of in-range commands gives back their expansion. */
  lemma {:induction false} FrameDecodes(cmds: seq<Cmd>)
    requires AllFramable(cmds)
    ensures WellFormed(Frame(cmds)) && Decode(Frame(cmds)) == Expand(cmds)
    decreases |cmds|
  {
    if cmds != [] {
      FrameDecodes(cmds[1..]);
      DecodeFrameCmd(cmds[0], Frame(cmds[1..]));
    }
  }

  /** packbits_decompress undoes packbits_compress. */
  lemma RoundTrip(s: seq<uint8>)
    ensures WellFormed(Encode(s)) && Decode(Encode(s)) == s
  {
    CommandsInLimits(s, 0);
    FrameDecodes(Commands(s));
    CommandsCover(s, 0);
  }

  // ---------------------------------------------------------------------------
  // One step of the compressor

  /** `op` and `cnt` are what one pass of packbits_compress's loop body
      computes at `rp`: the op bytes it writes and the input it consumes. */
  predicate IsStep(src: seq<uint8>, rp: nat, op: seq<uint8>, cnt: nat)
    requires rp < |src|
  {
    var pairs := EqualPairs(src, rp, 127);
    if pairs > 0 then cnt == pairs + 1 && op == [RepOp(cnt), src[rp]]
    else cnt == LiteralRun(src, rp, 128) && 1 <= cnt && op == [cnt - 1] + src[rp..rp + cnt]
  }

  /** One pass of the loop body produces the next framed command and moves
      past the bytes it covers. */
  lemma Step(src: seq<uint8>, rp: nat, op: seq<uint8>, cnt: nat)
    requires rp < |src| && IsStep(src, rp, op, cnt)
    ensures 1 <= cnt && rp + cnt <= |src|
    ensures cnt == Len(FirstAt(src, rp)) && op == FrameCmd(FirstAt(src, rp))
  {
    if EqualPairs(src, rp, 127) > 0 {
      StepRep(src, rp, cnt);
    } else {
      StepCpy(src, rp, cnt);
    }
  }

  lemma StepRep(src: seq<uint8>, rp: nat, cnt: nat)
    requires rp < |src| && cnt == EqualPairs(src, rp, 127) + 1 && cnt > 1
    ensures FirstAt(src, rp) == Rep(cnt, src[rp])
  {
  }

  lemma StepCpy(src: seq<uint8>, rp: nat, cnt: nat)
    requires rp < |src| && EqualPairs(src, rp, 127) == 0 && cnt == LiteralRun(src, rp, 128)
    ensures 1 <= cnt && rp + cnt <= |src| && FirstAt(src, rp) == Cpy(src[rp..rp + cnt])
  {
  }

  /** One pass of the loop body moves the next framed command from what is
      left to the output. */
  lemma CompressKeeps(src: seq<uint8>, rp: nat, whole: seq<uint8>, out: seq<uint8>, op: seq<uint8>, cnt: nat)
    requires rp < |src| && IsStep(src, rp, op, cnt)
    requires whole == out + EncodeAt(src, rp)
    ensures rp < rp + cnt <= |src| && whole == (out + op) + EncodeAt(src, rp + cnt)
  {
    Step(src, rp, op, cnt);
    EncodeStep(src, rp);
    Advance(whole, out, EncodeAt(src, rp), op, EncodeAt(src, rp + cnt));
  }

  /** `piece` and `next` are what one pass of packbits_decompress's loop body
      produces at `rp` and where it leaves the read cursor. */
  predicate IsDecodeStep(e: seq<uint8>, rp: nat, piece: seq<uint8>, next: nat)
    requires rp < |e|
  {
    if e[rp] > 0x80 then rp + 2 <= |e| && piece == Repeat(RepCount(e[rp]), e[rp + 1]) && next == rp + 2
    else if e[rp] < 0x80 then next == rp + e[rp] + 2 && next <= |e| && piece == e[rp + 1..next]
    else piece == [] && next == rp + 2
  }

  /** One pass of the decompressor's loop body decodes the next op. */
  lemma DecodeStep(e: seq<uint8>, rp: nat, piece: seq<uint8>, next: nat)
    requires rp < |e| && WellFormedAt(e, rp) && IsDecodeStep(e, rp, piece, next)
    ensures rp < next && WellFormedAt(e, next)
    ensures DecodeAt(e, rp) == piece + DecodeAt(e, next)
  {
  }

  // ---------------------------------------------------------------------------
  // The codec

  /** One pass of packbits_compress's loop body: the op bytes it writes at
      `rp` and the number of input bytes they cover. */
  method NextOp(src: seq<uint8>, rp: nat) returns (op: seq<uint8>, cnt: nat)
    requires rp < |src|
    ensures IsStep(src, rp, op, cnt)
  {
    cnt := ScanEqual(src, rp, 127);
    if cnt > 0 {
      cnt := cnt + 1;
      op := [RepOp(cnt), src[rp]];
    } else {
      cnt := ScanLiterals(src, rp, 128);
      op := [cnt - 1] + src[rp..rp + cnt];
    }
  }

  /** The choice of NextOp, with what it means for the output in progress. */
  method CompressPass(src: seq<uint8>, rp: nat, ghost whole: seq<uint8>, ghost out: seq<uint8>)
    returns (op: seq<uint8>, cnt: nat)
    requires rp < |src| && whole == out + EncodeAt(src, rp)
    ensures rp < rp + cnt <= |src| && whole == (out + op) + EncodeAt(src, rp + cnt)
  {
    op, cnt := NextOp(src, rp);
    CompressKeeps(src, rp, whole, out, op, cnt);
  }

  /** packbits_compress. With no destination it returns the size of the
      compressed data; with one, it writes the compressed data clipped to
      `dlen`, and returns the same size when `dlen` suffices. */
  method Compress(src: seq<uint8>, dest: array?<uint8>, dlen: nat) returns (wp: nat)
    requires dest != null ==> dlen <= dest.Length
    modifies dest
    ensures dest == null || |Encode(src)| <= dlen ==> wp == |Encode(src)|
    ensures wp == |Encode(src)| || (dest != null && dlen <= wp < |Encode(src)|)
    ensures dest != null ==> Holds(dest[..], old(dest[..]), dlen, Encode(src)[..wp])
  {
    ghost var before := if dest != null then dest[..] else [];
    ghost var whole := Encode(src);
    ghost var out: seq<uint8> := [];
    var rp := 0;
    wp := 0;
    while rp < |src| && (dest == null || wp < dlen)
      invariant rp <= |src|
      invariant whole == out + EncodeAt(src, rp)
      invariant wp == |out|
      invariant dest != null ==> Holds(dest[..], before, dlen, out)
      decreases |src| - rp
    {
      var op, cnt := CompressPass(src, rp, whole, out);
      if dest != null {
        Emit(dest, dlen, wp, op, before, out);
      }
      out := out + op;
      wp := wp + |op|;
      rp := rp + cnt;
    }
    Finish(whole, out, EncodeAt(src, rp));
  }

  /** packbits_decompress on a well-formed stream. With no destination it
      returns the decoded size; with one, it writes the decoded data clipped
      to `dlen`, and returns the same size when `dlen` suffices. */
  method Decompress(src: seq<uint8>, dest: array?<uint8>, dlen: nat) returns (wp: nat)
    requires WellFormed(src)
    requires dest != null ==> dlen <= dest.Length
    modifies dest
    ensures dest == null || |Decode(src)| <= dlen ==> wp == |Decode(src)|
    ensures wp == |Decode(src)| || (dest != null && dlen <= wp < |Decode(src)|)
    ensures dest != null ==> Holds(dest[..], old(dest[..]), dlen, Decode(src)[..wp])
  {
    ghost var before := if dest != null then dest[..] else [];
    ghost var whole := Decode(src);
    ghost var out: seq<uint8> := [];
    var rp := 0;
    wp := 0;
    while rp < |src| && (dest == null || wp < dlen)
      invariant rp <= |src| && WellFormedAt(src, rp)
      invariant whole == out + DecodeAt(src, rp)
      invariant wp == |out|
      invariant dest != null ==> Holds(dest[..], before, dlen, out)
      decreases |src| - rp
    {
      var b := src[rp];
      var piece: seq<uint8>;
      var next: nat;
      if b > 0x80 {
        var cnt := RepCount(b);
        piece := Repeat(cnt, src[rp + 1]);
        next := rp + 2;
      } else if b < 0x80 {
        var cnt := b + 1;
        piece := src[rp + 1..rp + 1 + cnt];
        next := rp + 1 + cnt;
      } else {
        piece := [];
        next := rp + 2;
      }
      DecodeStep(src, rp, piece, next);
      Advance(whole, out, DecodeAt(src, rp), piece, DecodeAt(src, next));
      if dest != null {
        Emit(dest, dlen, wp, piece, before, out);
      }
      out := out + piece;
      wp := wp + |piece|;
      rp := next;
    }
    Finish(whole, out, DecodeAt(src, rp));
  }
}
