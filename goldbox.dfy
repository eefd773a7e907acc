/** The Goldbox variant (rle_goldbox.h). An op byte with the top bit set is a
    REP whose count is the op byte negated as `int8_t`; any other op byte `b`
    is a CPY of the `b + 1` literal bytes that follow it. */
module Goldbox {
  import opened Bytes
  import opened Cmds
  import RleParse
  import opened Runs

  // ---------------------------------------------------------------------------
  // The compressor's scans

  /** The literal scan of goldbox_compress at `i`: how many bytes in a row,
      from `i` on, differ from their successor, stopping at `max`. The last
      byte of the input has no successor, so it is never counted. */
  function DifferingPairs(src: seq<uint8>, i: nat, max: nat): (n: nat)
    ensures n <= max
    ensures n > 0 ==> i + n < |src|
    decreases |src| - i
  {
    if max == 0 || i + 1 >= |src| || src[i] == src[i + 1] then 0
    else 1 + DifferingPairs(src, i + 1, max - 1)
  }

  /** The command goldbox_compress emits at `rp`: a REP when the first scan
      found equal neighbours or a single byte is left, else a CPY of the
      literal scan's bytes. */
  function FirstAt(src: seq<uint8>, rp: nat): (c: Cmd)
    requires rp < |src|
    ensures (c.Rep? && 1 <= c.count <= 127 && c.value == src[rp]) || (c.Cpy? && 1 <= |c.lits| <= 126)
    ensures rp + Len(c) <= |src|
  {
    var pairs := EqualPairs(src, rp, 126);
    if pairs > 0 || rp + 1 == |src| then Rep(pairs + 1, src[rp])
    else Cpy(src[rp..rp + DifferingPairs(src, rp, 126)])
  }

  /** The commands goldbox_compress emits for `src[rp..]`. */
  function CommandsAt(src: seq<uint8>, rp: nat): seq<Cmd>
    decreases |src| - rp, 1
  {
    if rp >= |src| then [] else CommandsFrom(src, rp)
  }

  /** The commands from `rp` on, with input left at `rp`: the one chosen
      there, then the rest. */
  function CommandsFrom(src: seq<uint8>, rp: nat): seq<Cmd>
    requires rp < |src|
    decreases |src| - rp, 0
  {
    var c := FirstAt(src, rp);
    [c] + CommandsAt(src, rp + Len(c))
  }

  function Commands(s: seq<uint8>): seq<Cmd>
  {
    CommandsAt(s, 0)
  }

  // ---------------------------------------------------------------------------
  // Framing

  /** The counts a Goldbox op byte can express. */
  predicate Framable(c: Cmd)
  {
    match c
    case Rep(n, _) => 1 <= n <= 128
    case Cpy(l) => 1 <= |l| <= 128
    case Lit(_) => false
  }

  /** The REP op byte of a count 1..128, `-(int8_t)cnt` read as a byte. */
  function RepOp(n: nat): (b: uint8)
    requires 1 <= n <= 128
    ensures b >= 0x80
  {
    256 - n
  }

  /** The count of a REP op byte, `-(int8_t)b`: 1..128. */
  function RepCount(b: uint8): (n: nat)
    requires b >= 0x80
    ensures 1 <= n <= 128
  {
    256 - b
  }

  /** RepOp and RepCount are the C conversions `-(int8_t)cnt` and
      `-(int8_t)b`, and each undoes the other. */
  lemma RepOpInverse(n: nat, b: uint8)
    requires 1 <= n <= 128 && b >= 0x80
    ensures RepOp(n) == ToByte(-Int8(ToByte(n)))
    ensures RepCount(b) == ToByte(-Int8(b))
    ensures RepCount(RepOp(n)) == n && RepOp(RepCount(b)) == b
  {
    assert ToByte(n) == n;
    if n < 128 {
      assert ToByte(0 - n) == 256 - n;
    }
  }

  /** Wire form of one command: a REP is its op byte and the repeated byte,
      a CPY the op byte `cnt - 1` and the literals. */
  function FrameCmd(c: Cmd): (r: seq<uint8>)
    requires Framable(c)
    ensures |r| == Size(c)
  {
    match c
    case Rep(n, v) => [RepOp(n), v]
    case Cpy(l) => [|l| - 1] + l
  }

  predicate AllFramable(cmds: seq<Cmd>)
    decreases |cmds|
  {
    cmds == [] || (Framable(cmds[0]) && AllFramable(cmds[1..]))
  }

  function Frame(cmds: seq<Cmd>): (r: seq<uint8>)
    requires AllFramable(cmds)
    ensures |r| == TotalSize(cmds)
    decreases |cmds|
  {
    if cmds == [] then [] else FrameCmd(cmds[0]) + Frame(cmds[1..])
  }

  /** What goldbox_compress produces for `src[rp..]`: the framing of its
      commands. */
  function EncodeAt(src: seq<uint8>, rp: nat): (r: seq<uint8>)
    ensures |r| == TotalSize(CommandsAt(src, rp))
  {
    CommandsInLimits(src, rp);
    Frame(CommandsAt(src, rp))
  }

  /** What goldbox_compress produces: 2 bytes per REP and one more than its
      length per CPY. */
  function Encode(s: seq<uint8>): (r: seq<uint8>)
    ensures |r| == TotalSize(Commands(s))
  {
    EncodeAt(s, 0)
  }

  // ---------------------------------------------------------------------------
  // Decoding

  /** Streams goldbox_decompress reads without running past their end: every
      REP op has its byte, every CPY op all of its literals. */
  predicate WellFormedAt(e: seq<uint8>, rp: nat)
    decreases |e| - rp
  {
    rp >= |e| ||
    if e[rp] >= 0x80 then rp + 2 <= |e| && WellFormedAt(e, rp + 2)
    else rp + e[rp] + 2 <= |e| && WellFormedAt(e, rp + e[rp] + 2)
  }

  /** What goldbox_decompress produces from `e[rp..]`: a REP op `b` stands for
      `-(int8_t)b` (1..128) copies of the next byte, a CPY op `b` for the
      `b + 1` bytes after it. */
  function DecodeAt(e: seq<uint8>, rp: nat): seq<uint8>
    requires WellFormedAt(e, rp)
    decreases |e| - rp
  {
    if rp >= |e| then []
    else if e[rp] >= 0x80 then Repeat(RepCount(e[rp]), e[rp + 1]) + DecodeAt(e, rp + 2)
    else e[rp + 1..rp + e[rp] + 2] + DecodeAt(e, rp + e[rp] + 2)
  }

  predicate WellFormed(e: seq<uint8>)
  {
    WellFormedAt(e, 0)
  }

  function Decode(e: seq<uint8>): (r: seq<uint8>)
    requires WellFormed(e)
    ensures |r| <= 64 * |e|
    ensures |e| <= 2 * |r|
  {
    DecodeSize(e, 0);
    DecodeAt(e, 0)
  }

  /** Each op byte and the bytes it takes stand for at most 64 output bytes
      per input byte, and at least one for every two. */
  lemma {:induction false} DecodeSize(e: seq<uint8>, rp: nat)
    requires WellFormedAt(e, rp) && rp <= |e|
    ensures |DecodeAt(e, rp)| <= 64 * (|e| - rp)
    ensures |e| - rp <= 2 * |DecodeAt(e, rp)|
    decreases |e| - rp
  {
    if rp < |e| {
      if e[rp] >= 0x80 {
        DecodeSize(e, rp + 2);
      } else {
        DecodeSize(e, rp + e[rp] + 2);
      }
    }
  }

  // ---------------------------------------------------------------------------
  // What the compressor's commands are

  /** The literal scan only counts bytes that differ from their successor. */
  lemma {:induction false} DifferingPairsDistinct(src: seq<uint8>, i: nat, max: nat)
    ensures forall k :: i <= k < i + DifferingPairs(src, i, max) ==> DiffersFromNext(src, k)
    decreases |src| - i
  {
    if DifferingPairs(src, i, max) > 0 {
      DifferingPairsDistinct(src, i + 1, max - 1);
    }
  }

  /** Each command stands for exactly the input bytes it covers. */
  lemma FirstCovers(src: seq<uint8>, rp: nat)
    requires rp < |src|
    ensures ExpandCmd(FirstAt(src, rp)) == src[rp..rp + Len(FirstAt(src, rp))]
  {
    var c := FirstAt(src, rp);
    if c.Rep? {
      EqualPairsUniform(src, rp, 126);
    }
  }

  /** A REP is as long as the run at `rp` allows, up to 127 bytes; a CPY holds
      no two equal neighbours. */
  lemma FirstIsMaximal(src: seq<uint8>, rp: nat)
    requires rp < |src|
    ensures FirstAt(src, rp).Rep? ==> FirstAt(src, rp).count == RleParse.RepRun(src[rp..], 127)
    ensures FirstAt(src, rp).Cpy? ==>
      forall k :: rp <= k < rp + |FirstAt(src, rp).lits| ==> DiffersFromNext(src, k)
  {
    EqualPairsRun(src, rp, 126);
    DifferingPairsDistinct(src, rp, 126);
  }

  /** CommandsAt covers the input exactly. */
  lemma {:induction false} CommandsCover(src: seq<uint8>, rp: nat)
    requires rp <= |src|
    ensures Expand(CommandsAt(src, rp)) == src[rp..]
    decreases |src| - rp
  {
    if rp < |src| {
      var c := FirstAt(src, rp);
      CommandsCover(src, rp + Len(c));
      CommandsStep(src, rp);
      FirstCovers(src, rp);
      ExpandCons(c, CommandsAt(src, rp + Len(c)));
      assert src[rp..] == src[rp..rp + Len(c)] + src[rp + Len(c)..];
    }
  }

  /** CommandsAt one command at a time. */
  lemma CommandsStep(src: seq<uint8>, rp: nat)
    requires rp < |src|
    ensures var c := FirstAt(src, rp);
      CommandsAt(src, rp) == [c] + CommandsAt(src, rp + Len(c))
  {
  }

  /** Every command respects the compressor's limits (REP 1..127, CPY
      1..126), so it can be framed. */
  lemma {:induction false} CommandsInLimits(src: seq<uint8>, rp: nat)
    ensures forall i :: 0 <= i < |CommandsAt(src, rp)| ==>
      var c := CommandsAt(src, rp)[i];
      (c.Rep? && 1 <= c.count <= 127) || (c.Cpy? && 1 <= |c.lits| <= 126)
    ensures AllFramable(CommandsAt(src, rp))
    decreases |src| - rp
  {
    if rp < |src| {
      var c := FirstAt(src, rp);
      var rest := CommandsAt(src, rp + Len(c));
      CommandsInLimits(src, rp + Len(c));
      CommandsStep(src, rp);
      assert ([c] + rest)[1..] == rest;
      assert forall i :: 1 <= i < |[c] + rest| ==> ([c] + rest)[i] == rest[i - 1];
    }
  }

  /** The last command is a REP: the literal scan never takes the final
      byte. */
  lemma {:induction false} LastIsRep(src: seq<uint8>, rp: nat)
    requires rp < |src|
    ensures |CommandsAt(src, rp)| > 0 && CommandsAt(src, rp)[|CommandsAt(src, rp)| - 1].Rep?
    decreases |src| - rp
  {
    var c := FirstAt(src, rp);
    var rest := CommandsAt(src, rp + Len(c));
    CommandsStep(src, rp);
    if rp + Len(c) < |src| {
      LastIsRep(src, rp + Len(c));
      assert ([c] + rest)[|[c] + rest| - 1] == rest[|rest| - 1];
    } else {
      assert rest == [];
    }
  }

  /** The compressor's output one command at a time. */
  lemma EncodeStep(src: seq<uint8>, rp: nat)
    requires rp < |src|
    ensures var c := FirstAt(src, rp);
      Framable(c) && EncodeAt(src, rp) == FrameCmd(c) + EncodeAt(src, rp + Len(c))
  {
    var c := FirstAt(src, rp);
    var rest := CommandsAt(src, rp + Len(c));
    CommandsStep(src, rp);
    CommandsInLimits(src, rp + Len(c));
    assert ([c] + rest)[1..] == rest;
  }

  // ---------------------------------------------------------------------------
  // Round trip

  /** Decoding does not depend on what precedes the stream. */
  lemma {:induction false} DecodeShiftAt(e: seq<uint8>, off: nat, q: seq<uint8>, i: nat)
    requires off + |q| == |e| && i <= |q|
    requires forall j :: 0 <= j < |q| ==> e[off + j] == q[j]
    ensures WellFormedAt(e, off + i) == WellFormedAt(q, i)
    ensures WellFormedAt(q, i) ==> DecodeAt(e, off + i) == DecodeAt(q, i)
    decreases |q| - i
  {
    if i < |q| {
      var k := off + i;
      var n := if q[i] >= 0x80 then 2 else q[i] + 2;
      OpShiftAt(e, off, q, i);
      if i + n <= |q| {
        DecodeShiftAt(e, off, q, i + n);
        assert k + n == off + (i + n);
      }
    }
  }

  /** The op at `off + i` and the bytes it takes are those at `i` in `q`. */
  lemma OpShiftAt(e: seq<uint8>, off: nat, q: seq<uint8>, i: nat)
    requires off + |q| == |e| && i < |q|
    requires forall j :: 0 <= j < |q| ==> e[off + j] == q[j]
    ensures e[off + i] == q[i]
    ensures q[i] >= 0x80 && i + 2 <= |q| ==> e[off + i + 1] == q[i + 1]
    ensures q[i] < 0x80 && i + q[i] + 2 <= |q| ==>
      e[off + i + 1..off + i + q[i] + 2] == q[i + 1..i + q[i] + 2]
  {
    assert e[off + i] == q[i];
  }

  lemma DecodeShift(p: seq<uint8>, q: seq<uint8>, i: nat)
    requires i <= |q|
    ensures WellFormedAt(p + q, |p| + i) == WellFormedAt(q, i)
    ensures WellFormedAt(q, i) ==> DecodeAt(p + q, |p| + i) == DecodeAt(q, i)
  {
    DecodeShiftAt(p + q, |p|, q, i);
  }

  /** One framed command in front of a well-formed stream decodes to its
      expansion followed by the stream's decoding. */
  lemma DecodeFrameCmd(c: Cmd, rest: seq<uint8>)
    requires Framable(c) && WellFormed(rest)
    ensures WellFormed(FrameCmd(c) + rest)
    ensures Decode(FrameCmd(c) + rest) == ExpandCmd(c) + Decode(rest)
  {
    var f := FrameCmd(c);
    DecodeShift(f, rest, 0);
    match c
    case Rep(n, v) =>
    case Cpy(l) =>
      assert (f + rest)[1..|l| + 1] == l;
  }

  /** Decoding the framing of in-range commands gives back their expansion. */
  lemma {:induction false} FrameDecodes(cmds: seq<Cmd>)
    requires AllFramable(cmds)
    ensures WellFormed(Frame(cmds)) && Decode(Frame(cmds)) == Expand(cmds)
    decreases |cmds|
  {
    if cmds != [] {
      FrameDecodes(cmds[1..]);
      DecodeFrameCmd(cmds[0], Frame(cmds[1..]));
    }
  }

  /** goldbox_decompress undoes goldbox_compress. */
  lemma RoundTrip(s: seq<uint8>)
    ensures WellFormed(Encode(s)) && Decode(Encode(s)) == s
  {
    CommandsInLimits(s, 0);
    FrameDecodes(Commands(s));
    CommandsCover(s, 0);
  }

  /** A single byte is framed as a REP of one: "A" compresses to FF 41. */
  lemma SingleByteExample()
    ensures Encode([0x41]) == [0xFF, 0x41]
  {
    assert FirstAt([0x41], 0) == Rep(1, 0x41);
  }

  // ---------------------------------------------------------------------------
  // One step of the compressor

  /** `op` and `cnt` are what one pass of goldbox_compress's loop body
      computes at `rp`: the op bytes it writes and the input it consumes. */
  predicate IsStep(src: seq<uint8>, rp: nat, op: seq<uint8>, cnt: nat)
    requires rp < |src|
  {
    var pairs := EqualPairs(src, rp, 126);
    if pairs > 0 || rp + 1 == |src| then cnt == pairs + 1 && op == [RepOp(cnt), src[rp]]
    else cnt == DifferingPairs(src, rp, 126) && rp + cnt <= |src| && op == [cnt - 1] + src[rp..rp + cnt]
  }

  /** One pass of the loop body produces the next framed command and moves
      past the bytes it covers. */
  lemma Step(src: seq<uint8>, rp: nat, op: seq<uint8>, cnt: nat)
    requires rp < |src| && IsStep(src, rp, op, cnt)
    ensures 1 <= cnt && rp + cnt <= |src|
    ensures cnt == Len(FirstAt(src, rp)) && op == FrameCmd(FirstAt(src, rp))
  {
    var pairs := EqualPairs(src, rp, 126);
    if pairs > 0 || rp + 1 == |src| {
      StepRep(src, rp, cnt);
    } else {
      StepCpy(src, rp, cnt);
    }
  }

  lemma StepRep(src: seq<uint8>, rp: nat, cnt: nat)
    requires rp < |src| && cnt == EqualPairs(src, rp, 126) + 1
    requires cnt > 1 || rp + 1 == |src|
    ensures FirstAt(src, rp) == Rep(cnt, src[rp])
  {
  }

  lemma StepCpy(src: seq<uint8>, rp: nat, cnt: nat)
    requires rp + 1 < |src| && EqualPairs(src, rp, 126) == 0 && cnt == DifferingPairs(src, rp, 126)
    ensures 1 <= cnt && rp + cnt < |src| && FirstAt(src, rp) == Cpy(src[rp..rp + cnt])
  {
  }

  /** One pass of the loop body moves the next framed command from what is
      left to the output. */
  lemma CompressKeeps(src: seq<uint8>, rp: nat, whole: seq<uint8>, out: seq<uint8>, op: seq<uint8>, cnt: nat)
    requires rp < |src| && IsStep(src, rp, op, cnt)
    requires whole == out + EncodeAt(src, rp)
    ensures rp < rp + cnt <= |src| && whole == (out + op) + EncodeAt(src, rp + cnt)
  {
    Step(src, rp, op, cnt);
    EncodeStep(src, rp);
    Advance(whole, out, EncodeAt(src, rp), op, EncodeAt(src, rp + cnt));
  }

  // ---------------------------------------------------------------------------
  // The codec

  /** The literal scan of goldbox_compress: the bytes from `rp` on that
      differ from their successor, up to 126. */
  method ScanDiff(src: seq<uint8>, rp: nat) returns (cnt: nat)
    requires rp < |src|
    ensures cnt == DifferingPairs(src, rp, 126)
  {
    cnt := 0;
    while rp + cnt + 1 < |src| && src[rp + cnt] != src[rp + cnt + 1] && cnt < 126
      invariant cnt <= 126 && rp + cnt < |src|
      invariant DifferingPairs(src, rp, 126) == cnt + DifferingPairs(src, rp + cnt, 126 - cnt)
    {
      cnt := cnt + 1;
    }
  }

  /** One pass of goldbox_compress's loop body: the op bytes it writes at
      `rp` and the number of input bytes they cover. */
  method NextOp(src: seq<uint8>, rp: nat) returns (op: seq<uint8>, cnt: nat)
    requires rp < |src|
    ensures IsStep(src, rp, op, cnt)
  {
    cnt := ScanEqual(src, rp, 126);
    if cnt > 0 || rp + cnt + 1 == |src| {
      cnt := cnt + 1;
      op := [RepOp(cnt), src[rp]];
    } else {
      cnt := ScanDiff(src, rp);
      op := [cnt - 1] + src[rp..rp + cnt];
    }
  }

  /** The choice of NextOp, with what it means for the output in progress. */
  method CompressPass(src: seq<uint8>, rp: nat, ghost whole: seq<uint8>, ghost out: seq<uint8>)
    returns (op: seq<uint8>, cnt: nat)
    requires rp < |src| && whole == out + EncodeAt(src, rp)
    ensures rp < rp + cnt <= |src| && whole == (out + op) + EncodeAt(src, rp + cnt)
  {
    op, cnt := NextOp(src, rp);
    CompressKeeps(src, rp, whole, out, op, cnt);
  }

  /** goldbox_compress. With no destination it returns the size of the
      compressed data; with one, it writes the compressed data clipped to
      `dlen`, and returns the same size when `dlen` suffices. The op byte and
      the bytes after it are written clipped as the source's guarded stores
      write them. */
  method Compress(src: seq<uint8>, dest: array?<uint8>, dlen: nat) returns (wp: nat)
    requires dest != null ==> dlen <= dest.Length
    modifies dest
    ensures dest == null || |Encode(src)| <= dlen ==> wp == |Encode(src)|
    ensures wp == |Encode(src)| || (dest != null && dlen <= wp < |Encode(src)|)
    ensures dest != null ==> Holds(dest[..], old(dest[..]), dlen, Encode(src)[..wp])
  {
    ghost var before := if dest != null then dest[..] else [];
    ghost var whole := Encode(src);
    ghost var out: seq<uint8> := [];
    var rp := 0;
    wp := 0;
    while rp < |src| && (dest == null || wp < dlen)
      invariant rp <= |src|
      invariant whole == out + EncodeAt(src, rp)
      invariant wp == |out|
      invariant dest != null ==> Holds(dest[..], before, dlen, out)
      decreases |src| - rp
    {
      var op, cnt := CompressPass(src, rp, whole, out);
      if dest != null {
        Emit(dest, dlen, wp, op, before, out);
      }
      out := out + op;
      wp := wp + |op|;
      rp := rp + cnt;
    }
    Finish(whole, out, EncodeAt(src, rp));
  }

  /** goldbox_decompress on a well-formed stream. With no destination it
      returns the decoded size; with one, it writes the decoded data clipped
      to `dlen`, and returns the same size when `dlen` suffices. */
  method Decompress(src: seq<uint8>, dest: array?<uint8>, dlen: nat) returns (wp: nat)
    requires WellFormed(src)
    requires dest != null ==> dlen <= dest.Length
    modifies dest
    ensures dest == null || |Decode(src)| <= dlen ==> wp == |Decode(src)|
    ensures wp == |Decode(src)| || (dest != null && dlen <= wp < |Decode(src)|)
    ensures dest != null ==> Holds(dest[..], old(dest[..]), dlen, Decode(src)[..wp])
  {
    ghost var before := if dest != null then dest[..] else [];
    ghost var whole := Decode(src);
    ghost var out: seq<uint8> := [];
    var rp := 0;
    wp := 0;
    while rp < |src| && (dest == null || wp < dlen)
      invariant rp <= |src| && WellFormedAt(src, rp)
      invariant whole == out + DecodeAt(src, rp)
      invariant wp == |out|
      invariant dest != null ==> Holds(dest[..], before, dlen, out)
      decreases |src| - rp
    {
      var b := src[rp];
      var piece: seq<uint8>;
      var next: nat;
      if b >= 0x80 {
        var cnt := RepCount(b);
        var v := src[rp + 1];
        piece := Repeat(cnt, v);
        next := rp + 2;
      } else {
        var cnt := b + 1;
        piece := src[rp + 1..rp + 1 + cnt];
        next := rp + 1 + cnt;
      }
      Advance(whole, out, DecodeAt(src, rp), piece, DecodeAt(src, next));
      if dest != null {
        Emit(dest, dlen, wp, piece, before, out);
      }
      out := out + piece;
      wp := wp + |piece|;
      rp := next;
    }
    Finish(whole, out, DecodeAt(src, rp));
  }
}
