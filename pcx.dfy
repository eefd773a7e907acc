/** The PCX variant (rle_pcx.h). A byte whose top two bits are set is a REP
    op whose low six bits count copies of the next byte; any other byte is a
    literal standing for itself. */
module Pcx {
  import opened Bytes
  import opened Cmds
  import RleParse
  import opened Runs

  // ---------------------------------------------------------------------------
  // The compressor's choice of commands

  /** The command pcx_compress emits at `rp`: a REP of the run of up to 63
      equal bytes when it is longer than one byte or its byte cannot stand as
      a literal (top two bits set), else that byte as a literal. */
  function FirstAt(src: seq<uint8>, rp: nat): (c: Cmd)
    requires rp < |src|
    ensures (c.Rep? && 1 <= c.count <= 63 && c.value == src[rp]) || c == Lit(src[rp])
    ensures rp + Len(c) <= |src|
  {
    var cnt := EqualPairs(src, rp, 62) + 1;
    if cnt > 1 || src[rp] >= 0xC0 then Rep(cnt, src[rp]) else Lit(src[rp])
  }

  /** The commands pcx_compress emits for `src[rp..]`. */
  function CommandsAt(src: seq<uint8>, rp: nat): seq<Cmd>
    decreases |src| - rp
  {
    if rp >= |src| then []
    else
      var c := FirstAt(src, rp);
      [c] + CommandsAt(src, rp + Len(c))
  }

  function Commands(s: seq<uint8>): seq<Cmd>
  {
    CommandsAt(s, 0)
  }

  // ---------------------------------------------------------------------------
  // Framing

  /** What PCX can express: a REP of 1..63 bytes, a literal below 0xC0. */
  predicate Framable(c: Cmd)
  {
    match c
    case Rep(n, _) => 1 <= n <= 63
    case Cpy(_) => false
    case Lit(v) => v < 0xC0
  }

  /** `0xC0 | cnt` is `0xC0 + cnt` for a count below 64. */
  lemma OrIsAdd(n: bv8)
    requires n < 64
    ensures (0xC0 | n) as int == 0xC0 + n as int
  {
    assert 0xC0 | n == 0xC0 + n;
  }

  /** A byte has its top two bits set exactly when it is at least 0xC0. */
  lemma TopBits(b: bv8)
    ensures (b & 0xC0 == 0xC0) <==> b >= 0xC0
  {
  }

  /** For such a byte `b & 0x3F` is `b - 0xC0`. */
  lemma LowBits(b: bv8)
    requires b >= 0xC0
    ensures (b & 0x3F) as int == b as int - 0xC0
  {
    assert b & 0x3F == b - 0xC0;
  }

  /** Wire form of one command: a REP is `0xC0 | cnt` and the repeated byte,
      a literal is its own byte. */
  function FrameCmd(c: Cmd): (r: seq<uint8>)
    requires Framable(c)
    ensures |r| == Size(c)
  {
    match c
    case Rep(n, v) => [0xC0 + n, v]
    case Lit(v) => [v]
  }

  function Frame(cmds: seq<Cmd>): (r: seq<uint8>)
    requires forall c :: c in cmds ==> Framable(c)
    ensures |r| == TotalSize(cmds)
    decreases |cmds|
  {
    if cmds == [] then [] else FrameCmd(cmds[0]) + Frame(cmds[1..])
  }

  /** What pcx_compress produces for `src[rp..]`: at most two bytes per
      input byte, the worst case being a lone byte of 0xC0 or above. */
  function EncodeAt(src: seq<uint8>, rp: nat): (r: seq<uint8>)
    ensures rp <= |src| ==> |r| <= 2 * (|src| - rp)
    decreases |src| - rp, 1
  {
    if rp >= |src| then [] else EncodeFrom(src, rp, FirstAt(src, rp))
  }

  /** What pcx_compress produces for `src[rp..]` once it has chosen the
      command `c` at `rp`. */
  function EncodeFrom(src: seq<uint8>, rp: nat, c: Cmd): (r: seq<uint8>)
    requires Framable(c) && 1 <= Len(c) && rp + Len(c) <= |src|
    ensures |r| <= 2 * (|src| - rp)
    decreases |src| - rp, 0
  {
    FrameCmd(c) + EncodeAt(src, rp + Len(c))
  }

  function Encode(s: seq<uint8>): (r: seq<uint8>)
    ensures |r| <= 2 * |s|
  {
    EncodeAt(s, 0)
  }

  // ---------------------------------------------------------------------------
  // Decoding (total: every byte stream decodes)

  /** Where pcx_decompress's read cursor goes after the op at `rp`: past the
      op and, for a REP, past its value byte when there is one. */
  function NextAt(e: seq<uint8>, rp: nat): (next: nat)
    requires rp < |e|
    ensures rp < next <= |e|
  {
    if e[rp] >= 0xC0 && rp + 1 < |e| then rp + 2 else rp + 1
  }

  /** The bytes the op at `rp` stands for: `b & 0x3F` (0..63) copies of the
      next byte, or of 0 when the stream ends after the op; or the literal
      byte itself. */
  function PieceAt(e: seq<uint8>, rp: nat): (r: seq<uint8>)
    requires rp < |e|
    ensures |r| == if e[rp] >= 0xC0 then e[rp] - 0xC0 else 1
  {
    if e[rp] >= 0xC0 then Repeat(e[rp] - 0xC0, if rp + 1 < |e| then e[rp + 1] else 0)
    else [e[rp]]
  }

  /** What pcx_decompress produces from `e[rp..]`: at most 63 bytes per
      input byte. */
  function DecodeAt(e: seq<uint8>, rp: nat): (r: seq<uint8>)
    ensures rp <= |e| ==> |r| <= 63 * (|e| - rp)
    decreases |e| - rp
  {
    if rp >= |e| then [] else PieceAt(e, rp) + DecodeAt(e, NextAt(e, rp))
  }

  function Decode(e: seq<uint8>): (r: seq<uint8>)
    ensures |r| <= 63 * |e|
  {
    DecodeAt(e, 0)
  }

  // ---------------------------------------------------------------------------
  // What the compressor's commands are

  /** Each command stands for exactly the input bytes it covers. */
  lemma FirstCovers(src: seq<uint8>, rp: nat)
    requires rp < |src|
    ensures src[rp..] == ExpandCmd(FirstAt(src, rp)) + src[rp + Len(FirstAt(src, rp))..]
  {
    var c := FirstAt(src, rp);
    if c.Rep? {
      EqualPairsUniform(src, rp, 62);
    }
    assert src[rp..] == src[rp..rp + Len(c)] + src[rp + Len(c)..];
  }

  /** The command at `rp`, in terms of `rle_count_rep` with maximum 63 (the
      counter the source names in a comment): runs of 2..63 bytes are a REP,
      including runs of exactly 2; a single byte of 0xC0 or more is a REP of
      one (`C1 b`); any other single byte is a literal. */
  lemma FirstIsMaximal(src: seq<uint8>, rp: nat)
    requires rp < |src|
    ensures var r := RleParse.RepRun(src[rp..], 63);
      FirstAt(src, rp) == if r >= 2 || src[rp] >= 0xC0 then Rep(r, src[rp]) else Lit(src[rp])
  {
    EqualPairsRun(src, rp, 62);
  }

  /** CommandsAt covers the input exactly. */
  lemma {:induction false} CommandsCover(src: seq<uint8>, rp: nat)
    requires rp <= |src|
    ensures Expand(CommandsAt(src, rp)) == src[rp..]
    decreases |src| - rp
  {
    if rp < |src| {
      var c := FirstAt(src, rp);
      CommandsCover(src, rp + Len(c));
      FirstCovers(src, rp);
      ExpandCons(c, CommandsAt(src, rp + Len(c)));
    }
  }

  /** Every command is expressible: REP counts 1..63 (never 0), literals
      below 0xC0. */
  lemma {:induction false} CommandsInLimits(src: seq<uint8>, rp: nat)
    ensures forall c :: c in CommandsAt(src, rp) ==> Framable(c)
    decreases |src| - rp
  {
    if rp < |src| {
      CommandsInLimits(src, rp + Len(FirstAt(src, rp)));
    }
  }

  /** The compressor's output is the framing of its commands. */
  lemma {:induction false} EncodeFrames(src: seq<uint8>, rp: nat)
    ensures forall c :: c in CommandsAt(src, rp) ==> Framable(c)
    ensures EncodeAt(src, rp) == Frame(CommandsAt(src, rp))
    decreases |src| - rp
  {
    CommandsInLimits(src, rp);
    if rp < |src| {
      var c := FirstAt(src, rp);
      var rest := CommandsAt(src, rp + Len(c));
      EncodeFrames(src, rp + Len(c));
      assert ([c] + rest)[1..] == rest;
    }
  }

  /** The compressed size is 2 per REP plus 1 per literal. */
  lemma EncodeSize(s: seq<uint8>)
    ensures |Encode(s)| == TotalSize(Commands(s))
  {
    EncodeFrames(s, 0);
  }

  /** A lone byte of 0xC0 or more is escaped as `C1 b`, a pair of equal
      bytes is a REP of two, a lone byte below 0xC0 stands for itself. */
  lemma Examples()
    ensures Encode([0xC5]) == [0xC1, 0xC5]
    ensures Encode([0x41, 0x41]) == [0xC2, 0x41]
    ensures Encode([0x41, 0x42]) == [0x41, 0x42]
  {
    assert FirstAt([0xC5], 0) == Rep(1, 0xC5);
    assert FirstAt([0x41, 0x41], 0) == Rep(2, 0x41);
    assert FirstAt([0x41, 0x42], 0) == Lit(0x41);
    assert FirstAt([0x41, 0x42], 1) == Lit(0x42);
  }

  // ---------------------------------------------------------------------------
  // Round trip

  /** Decoding does not depend on what precedes the stream. */
  lemma {:induction false} DecodeShift(p: seq<uint8>, q: seq<uint8>, i: nat)
    requires i <= |q|
    ensures DecodeAt(p + q, |p| + i) == DecodeAt(q, i)
    decreases |q| - i
  {
    if i < |q| {
      var e := p + q;
      assert e[|p| + i] == q[i];
      assert |p| + i + 1 < |e| ==> e[|p| + i + 1] == q[i + 1];
      assert PieceAt(e, |p| + i) == PieceAt(q, i);
      assert NextAt(e, |p| + i) == |p| + NextAt(q, i);
      DecodeShift(p, q, NextAt(q, i));
    }
  }

  /** One framed command in front of a stream decodes to its expansion
      followed by the stream's decoding. */
  lemma DecodeFrameCmd(c: Cmd, rest: seq<uint8>)
    requires Framable(c)
    ensures Decode(FrameCmd(c) + rest) == ExpandCmd(c) + Decode(rest)
  {
    var f := FrameCmd(c);
    DecodeShift(f, rest, 0);
    assert (f + rest)[0] == f[0];
    if c.Rep? {
      assert (f + rest)[1] == f[1];
    }
  }

  /** Decoding the framing of expressible commands gives back their
      expansion. */
  lemma {:induction false} FrameDecodes(cmds: seq<Cmd>)
    requires forall c :: c in cmds ==> Framable(c)
    ensures Decode(Frame(cmds)) == Expand(cmds)
    decreases |cmds|
  {
    if cmds != [] {
      assert forall d :: d in cmds[1..] ==> d in cmds;
      FrameDecodes(cmds[1..]);
      DecodeFrameCmd(cmds[0], Frame(cmds[1..]));
    }
  }

  /** pcx_decompress undoes pcx_compress. */
  lemma RoundTrip(s: seq<uint8>)
    ensures Decode(Encode(s)) == s
  {
    EncodeFrames(s, 0);
    FrameDecodes(Commands(s));
    CommandsCover(s, 0);
  }

  // ---------------------------------------------------------------------------
  // One step of the compressor

  /** `op` and `cnt` are what one pass of pcx_compress's loop body computes
      at `rp`: the bytes it writes and the input it consumes. */
  predicate IsStep(src: seq<uint8>, rp: nat, op: seq<uint8>, cnt: nat)
    requires rp < |src|
  {
    var run := EqualPairs(src, rp, 62) + 1;
    if run > 1 || src[rp] >= 0xC0 then cnt == run && op == [0xC0 + run, src[rp]]
    else cnt == 1 && op == [src[rp]]
  }

  /** One pass of the loop body produces the next framed command and moves
      past the bytes it covers. */
  lemma Step(src: seq<uint8>, rp: nat, op: seq<uint8>, cnt: nat)
    requires rp < |src| && IsStep(src, rp, op, cnt)
    ensures 1 <= cnt && rp + cnt <= |src|
    ensures EncodeAt(src, rp) == op + EncodeAt(src, rp + cnt)
  {
  }

  // ---------------------------------------------------------------------------
  // The codec

  /** The do-while run counter of pcx_compress: 1..63 equal bytes from `rp`. */
  method CountRun(src: seq<uint8>, rp: nat) returns (cnt: nat)
    requires rp < |src|
    ensures cnt == EqualPairs(src, rp, 62) + 1
  {
    cnt := 1;
    while rp + cnt < |src| && cnt < 63 && src[rp + cnt - 1] == src[rp + cnt]
      invariant 1 <= cnt <= 63 && rp + cnt <= |src|
      invariant EqualPairs(src, rp, 62) == cnt - 1 + EqualPairs(src, rp + cnt - 1, 63 - cnt)
    {
      cnt := cnt + 1;
    }
  }

  /** One pass of pcx_compress's loop body: the bytes it writes at `rp` and
      the number of input bytes they cover. */
  method NextOp(src: seq<uint8>, rp: nat) returns (op: seq<uint8>, cnt: nat)
    requires rp < |src|
    ensures 1 <= cnt && rp + cnt <= |src|
    ensures EncodeAt(src, rp) == op + EncodeAt(src, rp + cnt)
  {
    cnt := CountRun(src, rp);
    if cnt > 1 || src[rp] >= 0xC0 {
      op := [0xC0 + cnt, src[rp]];
    } else {
      op := [src[rp]];
    }
    Step(src, rp, op, cnt);
  }

  /** pcx_compress. With no destination it returns the size of the
      compressed data; with one, it writes the compressed data clipped to
      `dlen`, and returns the same size when `dlen` suffices. */
  method Compress(src: seq<uint8>, dest: array?<uint8>, dlen: nat) returns (wp: nat)
    requires dest != null ==> dlen <= dest.Length
    modifies dest
    ensures dest == null || |Encode(src)| <= dlen ==> wp == |Encode(src)|
    ensures wp == |Encode(src)| || (dest != null && dlen <= wp < |Encode(src)|)
    ensures dest != null ==> Holds(dest[..], old(dest[..]), dlen, Encode(src)[..wp])
  {
    ghost var before := if dest != null then dest[..] else [];
    ghost var whole := Encode(src);
    ghost var out: seq<uint8> := [];
    var rp := 0;
    wp := 0;
    while rp < |src| && (dest == null || wp < dlen)
      invariant rp <= |src|
      invariant whole == out + EncodeAt(src, rp)
      invariant wp == |out|
      invariant dest != null ==> Holds(dest[..], before, dlen, out)
      decreases |src| - rp
    {
      var op, cnt := NextOp(src, rp);
      Advance(whole, out, EncodeAt(src, rp), op, EncodeAt(src, rp + cnt));
      if dest != null {
        Emit(dest, dlen, wp, op, before, out);
      }
      out := out + op;
      wp := wp + |op|;
      rp := rp + cnt;
      assert whole == out + EncodeAt(src, rp);
    }
    Finish(whole, out, EncodeAt(src, rp));
  }

  /** pcx_decompress. It accepts every stream and never reads past its end.
      With no destination it returns the decoded size; with one, it writes the
      decoded data clipped to `dlen`, and returns the same size when `dlen`
      suffices. */
  method Decompress(src: seq<uint8>, dest: array?<uint8>, dlen: nat) returns (wp: nat)
    requires dest != null ==> dlen <= dest.Length
    modifies dest
    ensures dest == null || |Decode(src)| <= dlen ==> wp == |Decode(src)|
    ensures wp == |Decode(src)| || (dest != null && dlen <= wp < |Decode(src)|)
    ensures dest != null ==> Holds(dest[..], old(dest[..]), dlen, Decode(src)[..wp])
  {
    ghost var before := if dest != null then dest[..] else [];
    ghost var whole := Decode(src);
    ghost var out: seq<uint8> := [];
    var rp := 0;
    wp := 0;
    while rp < |src| && (dest == null || wp < dlen)
      invariant rp <= |src|
      invariant whole == out + DecodeAt(src, rp)
      invariant wp == |out|
      invariant dest != null ==> Holds(dest[..], before, dlen, out)
      decreases |src| - rp
    {
      var cnt := 1;
      var b := src[rp];
      var next := rp + 1;
      if b >= 0xC0 {
        cnt := b - 0xC0;
        if next < |src| {
          b := src[next];
          next := next + 1;
        } else {
          b := 0;
        }
      }
      var piece := Repeat(cnt, b);
      assert piece == PieceAt(src, rp) && next == NextAt(src, rp);
      Advance(whole, out, DecodeAt(src, rp), piece, DecodeAt(src, next));
      if dest != null {
        Emit(dest, dlen, wp, piece, before, out);
      }
      out := out + piece;
      wp := wp + |piece|;
      rp := next;
    }
    Finish(whole, out, DecodeAt(src, rp));
  }
}
