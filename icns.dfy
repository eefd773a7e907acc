/** The Apple ICNS variant (rle_icns.h). An op byte of 0x80 or more is a REP of
    `b - 125` (3..130) copies of the next byte; any other op byte `b` is a CPY
    of the `b + 1` literal bytes that follow it. Unlike the other variants, both
    functions report a full buffer or a truncated stream as a negative
    result. */
module Icns {
  import opened Bytes
  import opened Cmds
  import RleParse
  import opened Runs

  // ---------------------------------------------------------------------------
  // Error results

  /** `RLE_ZOO_RETURN_ERR`: `~(rp & (SIZE_MAX >> 1))` read as a signed 64-bit
      value, that is `-(rp mod 2^63) - 1`. */
  function ErrCode(rp: nat): (r: int)
    ensures -0x8000_0000_0000_0000 <= r < 0
  {
    -(rp % 0x8000_0000_0000_0000) - 1
  }

  /** An error result tells the read position it was raised at, for every
      position a 64-bit size can hold. */
  lemma ErrCodeInverse(rp: nat)
    requires rp < 0x8000_0000_0000_0000
    ensures -ErrCode(rp) - 1 == rp
  {
  }

  /** What one call produces: the bytes it writes, and the read position
      of the error it returns, if it returns one. */
  datatype Run = Run(out: seq<uint8>, err: Option<nat>)

  /** What icns_compress and icns_decompress return for a run: the error
      code, or the number of bytes written. */
  function Result(run: Run): (r: int)
    ensures run.err.None? ==> r == |run.out|
    ensures run.err.Some? ==> r < 0 && (run.err.value < 0x8000_0000_0000_0000 ==> -r - 1 == run.err.value)
  {
    if run.err.Some? then ErrCode(run.err.value) else |run.out|
  }

  /** The room left in the destination after `n` more bytes: `None` stands
      for a call without a destination, which the functions never check. */
  function Use(room: Option<nat>, n: nat): (left: Option<nat>)
    requires room.Some? ==> n <= room.value
    ensures left.Some? <==> room.Some?
  {
    if room.Some? then Some(room.value - n) else None
  }

  /** A run that has produced `out` so far and has `rest` still to come
      produces `whole`. */
  ghost predicate Pending(whole: Run, out: seq<uint8>, rest: Run)
  {
    whole == Run(out + rest.out, rest.err)
  }

  /** `n` bytes do not fit in the room left. */
  predicate NoRoom(room: Option<nat>, n: nat)
  {
    room.Some? && room.value < n
  }

  // ---------------------------------------------------------------------------
  // The compressor's choice of commands

  /** The literal scan of icns_compress from `i`, with `left` bytes of the 128
      allowed still to go: it takes bytes until the input or the budget runs out,
      but stops before three equal bytes in a row that lie wholly within the
      budget. */
  function LiteralRun(src: seq<uint8>, i: nat, left: nat): (n: nat)
    ensures n <= left
    ensures n > 0 ==> i + n <= |src|
    decreases |src| - i
  {
    if left == 0 || i >= |src| then 0
    else if left >= 3 && i + 2 < |src| && src[i] == src[i + 1] && src[i + 1] == src[i + 2] then 0
    else 1 + LiteralRun(src, i + 1, left - 1)
  }

  /** The command icns_compress emits at `rp`: a REP when at least three bytes
      in a row are equal (up to 130), else a CPY of the literal scan. */
  function FirstAt(src: seq<uint8>, rp: nat): (c: Cmd)
    requires rp < |src|
    ensures (c.Rep? && 3 <= c.count <= 130 && c.value == src[rp]) || (c.Cpy? && 1 <= |c.lits| <= 128)
    ensures rp + Len(c) <= |src|
  {
    var run := EqualPairs(src, rp, 129) + 1;
    if run >= 3 then Rep(run, src[rp])
    else LiteralRunStarts(src, rp); Cpy(src[rp..rp + LiteralRun(src, rp, 128)])
  }

  /** The commands icns_compress emits for `src[rp..]`. */
  function CommandsAt(src: seq<uint8>, rp: nat): seq<Cmd>
    decreases |src| - rp, 1
  {
    if rp >= |src| then [] else CommandsFrom(src, rp)
  }

  /** The commands icns_compress emits for `src[rp..]`, with input left at `rp`. */
  function CommandsFrom(src: seq<uint8>, rp: nat): seq<Cmd>
    requires rp < |src|
    decreases |src| - rp, 0
  {
    var c := FirstAt(src, rp);
    [c] + CommandsAt(src, rp + Len(c))
  }

  function Commands(s: seq<uint8>): seq<Cmd>
  {
    CommandsAt(s, 0)
  }

  // ---------------------------------------------------------------------------
  // Framing

  /** The counts an ICNS op byte can express. */
  predicate Framable(c: Cmd)
  {
    match c
    case Rep(n, _) => 3 <= n <= 130
    case Cpy(l) => 1 <= |l| <= 128
    case Lit(_) => false
  }

  /** Every command of `cmds` is Framable. */
  predicate AllFramable(cmds: seq<Cmd>)
    decreases |cmds|
  {
    cmds == [] || (Framable(cmds[0]) && AllFramable(cmds[1..]))
  }

  /** The REP op byte of a count 3..130: `cnt + 125`, 0x80..0xFF. */
  function RepOp(n: nat): (b: uint8)
    requires 3 <= n <= 130
    ensures b >= 0x80
  {
    n + 125
  }

  /** The count of a REP op byte: `b - 125`, 3..130. */
  function RepCount(b: uint8): (n: nat)
    requires b >= 0x80
    ensures 3 <= n <= 130
  {
    b - 125
  }

  /** RepOp and RepCount undo each other, and both are the source's `uint8_t`
      arithmetic, which never wraps in these ranges. */
  lemma RepOpInverse(n: nat, b: uint8)
    requires 3 <= n <= 130 && b >= 0x80
    ensures RepCount(RepOp(n)) == n && RepOp(RepCount(b)) == b
    ensures RepOp(n) == ToByte(n + 125) && RepCount(b) == ToByte(b - 125)
  {
  }

  /** Wire form of one command: a REP is its op byte and the repeated byte,
      a CPY the op byte `cnt - 1` and the literals. */
  function FrameCmd(c: Cmd): (r: seq<uint8>)
    requires Framable(c)
    ensures |r| == Size(c)
  {
    match c
    case Rep(n, v) => [RepOp(n), v]
    case Cpy(l) => [|l| - 1] + l
  }

  function Frame(cmds: seq<Cmd>): (r: seq<uint8>)
    requires AllFramable(cmds)
    ensures |r| == TotalSize(cmds)
    decreases |cmds|
  {
    if cmds == [] then [] else FrameCmd(cmds[0]) + Frame(cmds[1..])
  }

  /** What icns_compress produces given room enough: the framing of its
      commands, 2 bytes per REP and one more than its count per CPY. */
  function Encode(s: seq<uint8>): (r: seq<uint8>)
    ensures |r| == TotalSize(Commands(s))
  {
    CommandsInLimits(s, 0);
    Frame(Commands(s))
  }

  /** What icns_compress does from `rp` on with `room` bytes of
      destination left: it writes the framing of each command while it fits,
      and returns the error of the read position of the first that does
      not. The output never exceeds the room, nor two bytes per input
      byte. */
  function CompressAt(src: seq<uint8>, rp: nat, room: Option<nat>): (r: Run)
    ensures room.Some? ==> |r.out| <= room.value
    ensures rp <= |src| ==> |r.out| <= 2 * (|src| - rp)
    ensures r.err.Some? ==> rp <= r.err.value < |src|
    decreases |src| - rp, 1
  {
    if rp >= |src| then Run([], None) else CompressFrom(src, rp, room)
  }

  /** What icns_compress does from `rp` on, with input left at `rp`: it
      chooses the command there, then stops or writes it and goes on. */
  function CompressFrom(src: seq<uint8>, rp: nat, room: Option<nat>): (r: Run)
    requires rp < |src|
    ensures room.Some? ==> |r.out| <= room.value
    ensures |r.out| <= 2 * (|src| - rp)
    ensures r.err.Some? ==> rp <= r.err.value < |src|
    decreases |src| - rp, 0
  {
    var c := FirstAt(src, rp);
    if NoRoom(room, Size(c)) then Run([], Some(rp))
    else
      var rest := CompressAt(src, rp + Len(c), Use(room, Size(c)));
      Run(FrameCmd(c) + rest.out, rest.err)
  }

  // ---------------------------------------------------------------------------
  // Decoding

  /** The op at `rp` lacks some of its bytes: a REP its value byte, a CPY
      some of its literals. */
  predicate Truncated(e: seq<uint8>, rp: nat)
    requires rp < |e|
  {
    if e[rp] >= 0x80 then rp + 1 >= |e| else rp + e[rp] + 2 > |e|
  }

  /** Where the read cursor goes after a complete op at `rp`. */
  function NextAt(e: seq<uint8>, rp: nat): (next: nat)
    requires rp < |e| && !Truncated(e, rp)
    ensures rp < next <= |e|
  {
    if e[rp] >= 0x80 then rp + 2 else rp + e[rp] + 2
  }

  /** The bytes a complete op at `rp` stands for. */
  function PieceAt(e: seq<uint8>, rp: nat): (r: seq<uint8>)
    requires rp < |e| && !Truncated(e, rp)
  {
    if e[rp] >= 0x80 then Repeat(RepCount(e[rp]), e[rp + 1]) else e[rp + 1..rp + e[rp] + 2]
  }

  /** What icns_decompress decodes from `e[rp..]` given room enough: the
      pieces of the complete ops, and an error at the first truncated op,
      reported at the position after its op byte. */
  function DecodeAt(e: seq<uint8>, rp: nat): (r: Run)
    ensures r.err.Some? ==> rp < r.err.value <= |e|
    decreases |e| - rp, 1
  {
    if rp >= |e| then Run([], None)
    else if Truncated(e, rp) then Run([], Some(rp + 1))
    else DecodeFrom(e, rp)
  }

  /** What icns_decompress decodes from a complete op at `rp` on. */
  function DecodeFrom(e: seq<uint8>, rp: nat): (r: Run)
    requires rp < |e| && !Truncated(e, rp)
    ensures r.err.Some? ==> rp < r.err.value <= |e|
    decreases |e| - rp, 0
  {
    var d := DecodeAt(e, NextAt(e, rp));
    Run(PieceAt(e, rp) + d.out, d.err)
  }

  function Decode(e: seq<uint8>): (r: Run)
    ensures |r.out| <= 65 * |e|
    ensures r.err.Some? ==> 0 < r.err.value <= |e|
  {
    DecodeSize(e, 0);
    DecodeAt(e, 0)
  }

  /** A complete op and the bytes it takes stand for at most 65 output
      bytes per input byte. */
  lemma {:induction false} DecodeSize(e: seq<uint8>, rp: nat)
    requires rp <= |e|
    ensures |DecodeAt(e, rp).out| <= 65 * (|e| - rp)
    decreases |e| - rp
  {
    if rp < |e| && !Truncated(e, rp) {
      DecodeSize(e, NextAt(e, rp));
    }
  }

  /** What icns_decompress does from `rp` on with `room` bytes of
      destination left: it writes the piece of each complete op while it
      fits, and returns the error of the position after the op byte of the
      first truncated op or the first op that does not fit. The output
      never exceeds the room. */
  function DecompressAt(e: seq<uint8>, rp: nat, room: Option<nat>): (r: Run)
    ensures room.Some? ==> |r.out| <= room.value
    ensures rp <= |e| ==> |r.out| <= 65 * (|e| - rp)
    ensures r.err.Some? ==> rp < r.err.value <= |e|
    decreases |e| - rp, 1
  {
    if rp >= |e| then Run([], None) else DecompressFrom(e, rp, room)
  }

  /** What icns_decompress does from an op at `rp` on. */
  function DecompressFrom(e: seq<uint8>, rp: nat, room: Option<nat>): (r: Run)
    requires rp < |e|
    ensures room.Some? ==> |r.out| <= room.value
    ensures |r.out| <= 65 * (|e| - rp)
    ensures r.err.Some? ==> rp < r.err.value <= |e|
    decreases |e| - rp, 0
  {
    if Truncated(e, rp) then Run([], Some(rp + 1))
    else
      var piece := PieceAt(e, rp);
      if NoRoom(room, |piece|) then Run([], Some(rp + 1))
      else
        var rest := DecompressAt(e, NextAt(e, rp), Use(room, |piece|));
        Run(piece + rest.out, rest.err)
  }

  // ---------------------------------------------------------------------------
  // What the compressor's commands are

  /** The scan never stops at its first byte unless three equal bytes start
      there. */
  lemma LiteralRunStarts(src: seq<uint8>, rp: nat)
    requires rp < |src| && EqualPairs(src, rp, 129) < 2
    ensures LiteralRun(src, rp, 128) >= 1
  {
    if rp + 2 < |src| && src[rp] == src[rp + 1] {
      assert EqualPairs(src, rp + 1, 128) == 0;
    }
  }

  /** The literal scan is the first position within the budget that starts
      three equal bytes (or the end of budget or input), so a CPY only has
      equal neighbours in runs of at most two. */
  lemma {:induction false} LiteralRunNoTriple(src: seq<uint8>, i: nat, left: nat)
    ensures forall k :: i <= k && k + 2 < i + LiteralRun(src, i, left) ==>
      !(src[k] == src[k + 1] && src[k + 1] == src[k + 2])
    ensures var n := LiteralRun(src, i, left);
      n == left || i + n >= |src| ||
      (left - n >= 3 && i + n + 2 < |src| && src[i + n] == src[i + n + 1] && src[i + n + 1] == src[i + n + 2])
    decreases |src| - i
  {
    if LiteralRun(src, i, left) > 0 {
      LiteralRunNoTriple(src, i + 1, left - 1);
    }
  }

  /** Each command stands for exactly the input bytes it covers. */
  lemma FirstCovers(src: seq<uint8>, rp: nat)
    requires rp < |src|
    ensures src[rp..] == ExpandCmd(FirstAt(src, rp)) + src[rp + Len(FirstAt(src, rp))..]
  {
    var c := FirstAt(src, rp);
    if c.Rep? {
      EqualPairsUniform(src, rp, 129);
    }
    assert src[rp..] == src[rp..rp + Len(c)] + src[rp + Len(c)..];
  }

  /** A REP is the run `rle_count_rep` measures with maximum 130, chosen
      exactly when that run has 3 or more bytes. */
  lemma FirstIsMaximal(src: seq<uint8>, rp: nat)
    requires rp < |src|
    ensures var r := RleParse.RepRun(src[rp..], 130);
      (FirstAt(src, rp).Rep? <==> r >= 3) && (r >= 3 ==> FirstAt(src, rp) == Rep(r, src[rp]))
  {
    EqualPairsRun(src, rp, 129);
  }

  /** CommandsAt covers the input exactly. */
  lemma {:induction false} CommandsCover(src: seq<uint8>, rp: nat)
    requires rp <= |src|
    ensures Expand(CommandsAt(src, rp)) == src[rp..]
    decreases |src| - rp
  {
    if rp < |src| {
      var c := FirstAt(src, rp);
      CommandsCover(src, rp + Len(c));
      FirstCovers(src, rp);
      ExpandCons(c, CommandsAt(src, rp + Len(c)));
    }
  }

  /** Every command respects the limits REP 3..130 and CPY 1..128. */
  lemma {:induction false} CommandsInLimits(src: seq<uint8>, rp: nat)
    ensures AllFramable(CommandsAt(src, rp))
    decreases |src| - rp
  {
    if rp < |src| {
      CommandsInLimits(src, rp + Len(FirstAt(src, rp)));
    }
  }

  /** CommandsAt one command at a time. */
  lemma CommandsStep(src: seq<uint8>, rp: nat)
    requires rp < |src|
    ensures var c := FirstAt(src, rp);
      CommandsAt(src, rp) == [c] + CommandsAt(src, rp + Len(c))
  {
  }

  // ---------------------------------------------------------------------------
  // Round trip

  /** Errors found further into a stream are reported further on. */
  function ShiftErr(d: Run, k: nat): Run
  {
    Run(d.out, if d.err.Some? then Some(d.err.value + k) else None)
  }

  /** Decoding does not depend on what precedes the stream, except
      that error positions count from the start of the whole. */
  lemma {:induction false} DecodeShiftAt(e: seq<uint8>, off: nat, q: seq<uint8>, i: nat)
    requires off + |q| == |e| && i <= |q|
    requires forall j :: 0 <= j < |q| ==> e[off + j] == q[j]
    ensures DecodeAt(e, off + i).out == DecodeAt(q, i).out
    ensures DecodeAt(e, off + i).err == ShiftErr(DecodeAt(q, i), off).err
    decreases |q| - i
  {
    if i == |q| {
      assert DecodeAt(e, off + i) == Run([], None);
    } else {
      OpShiftAt(e, off, q, i);
      if Truncated(q, i) {
        assert DecodeAt(e, off + i) == Run([], Some(off + i + 1));
      } else {
        var next := NextAt(q, i);
        DecodeShiftAt(e, off, q, next);
        assert DecodeAt(e, off + i) == DecodeFrom(e, off + i);
        assert DecodeAt(q, i) == DecodeFrom(q, i);
        assert DecodeAt(e, off + i).err == DecodeAt(e, off + next).err;
        assert DecodeAt(q, i).err == DecodeAt(q, next).err;
      }
    }
  }

  lemma DecodeShift(p: seq<uint8>, q: seq<uint8>, i: nat)
    requires i <= |q|
    ensures DecodeAt(p + q, |p| + i).out == DecodeAt(q, i).out
    ensures DecodeAt(p + q, |p| + i).err == ShiftErr(DecodeAt(q, i), |p|).err
  {
    DecodeShiftAt(p + q, |p|, q, i);
  }

  /** One decoder step is independent of the bytes before the stream. */
  lemma OpShiftAt(e: seq<uint8>, off: nat, q: seq<uint8>, i: nat)
    requires off + |q| == |e| && i < |q|
    requires forall j :: 0 <= j < |q| ==> e[off + j] == q[j]
    ensures Truncated(e, off + i) == Truncated(q, i)
    ensures !Truncated(q, i) ==>
      PieceAt(e, off + i) == PieceAt(q, i) && NextAt(e, off + i) == off + NextAt(q, i)
  {
    var k := off + i;
    assert e[k] == q[i];
    if !Truncated(q, i) {
      if q[i] >= 0x80 {
        assert e[k + 1] == q[i + 1];
      } else {
        assert e[k + 1..k + q[i] + 2] == q[i + 1..i + q[i] + 2];
      }
    }
  }

  /** One framed command in front of a stream decodes to its expansion
      followed by the stream's decoding. */
  lemma DecodeFrameCmd(c: Cmd, rest: seq<uint8>)
    requires Framable(c) && Decode(rest).err == None
    ensures Decode(FrameCmd(c) + rest) == Run(ExpandCmd(c) + Decode(rest).out, None)
  {
    var f := FrameCmd(c);
    var e := f + rest;
    DecodeShift(f, rest, 0);
    assert e[0] == f[0];
    if c.Rep? {
      assert e[1] == c.value;
    } else {
      assert e[1..|c.lits| + 1] == c.lits;
    }
    assert !Truncated(e, 0);
    assert NextAt(e, 0) == |f|;
    assert PieceAt(e, 0) == ExpandCmd(c);
    assert DecodeAt(e, 0) == DecodeFrom(e, 0);
    assert DecodeAt(e, |f|).out == Decode(rest).out;
    assert DecodeAt(e, |f|).err == None;
  }

  /** Decoding the framing of in-range commands gives back their expansion. */
  lemma {:induction false} FrameDecodes(cmds: seq<Cmd>)
    requires AllFramable(cmds)
    ensures Decode(Frame(cmds)) == Run(Expand(cmds), None)
    decreases |cmds|
  {
    if cmds != [] {
      FrameDecodes(cmds[1..]);
      DecodeFrameCmd(cmds[0], Frame(cmds[1..]));
    }
  }

  /** icns_decompress undoes icns_compress, without error. */
  lemma RoundTrip(s: seq<uint8>)
    ensures Decode(Encode(s)) == Run(s, None)
  {
    CommandsInLimits(s, 0);
    FrameDecodes(Commands(s));
    CommandsCover(s, 0);
  }

  /** Two results of icns_rle, as REP and CPY ops. */
  lemma Examples()
    ensures Encode([7, 7, 7]) == [0x80, 7]
    ensures Encode([1, 2]) == [1, 1, 2]
    ensures Decode([0x80]) == Run([], Some(1))
    ensures Decode([0x02, 1]) == Run([], Some(1))
  {
    var s := [7, 7, 7];
    assert EqualPairs(s, 0, 129) == 2 by {
      assert EqualPairs(s, 2, 127) == 0;
      assert EqualPairs(s, 1, 128) == 1;
    }
    var t := [1, 2];
    assert EqualPairs(t, 0, 129) == 0;
    assert LiteralRun(t, 0, 128) == 2 by {
      assert LiteralRun(t, 2, 126) == 0;
      assert LiteralRun(t, 1, 127) == 1;
    }
    assert t[0..2] == t;
  }

  // ---------------------------------------------------------------------------
  // Bounded runs against the unbounded codec

  /** CompressAt one command at a time. */
  lemma CompressStep(src: seq<uint8>, rp: nat, room: Option<nat>)
    requires rp < |src|
    ensures var c := FirstAt(src, rp);
      NoRoom(room, Size(c)) ==> CompressAt(src, rp, room) == Run([], Some(rp))
    ensures var c := FirstAt(src, rp);
      !NoRoom(room, Size(c)) ==>
        var rest := CompressAt(src, rp + Len(c), Use(room, Size(c)));
        CompressAt(src, rp, room) == Run(FrameCmd(c) + rest.out, rest.err)
  {
  }

  /** The bounded write loop of icns_compress over a list of commands that
      start at read position `rp`: each command is written while it fits in
      the room left, and the read position of the first that does not is
      the error. */
  function FrameWithin(cmds: seq<Cmd>, rp: nat, room: Option<nat>): Run
    requires AllFramable(cmds)
    decreases |cmds|
  {
    if cmds == [] then Run([], None)
    else if NoRoom(room, Size(cmds[0])) then Run([], Some(rp))
    else
      var rest := FrameWithin(cmds[1..], rp + Len(cmds[0]), Use(room, Size(cmds[0])));
      Run(FrameCmd(cmds[0]) + rest.out, rest.err)
  }

  /** CompressAt is the bounded write loop over the commands the compressor
      chooses. */
  lemma {:induction false} CompressWalks(src: seq<uint8>, rp: nat, room: Option<nat>)
    ensures AllFramable(CommandsAt(src, rp))
    ensures CompressAt(src, rp, room) == FrameWithin(CommandsAt(src, rp), rp, room)
    decreases |src| - rp
  {
    CommandsInLimits(src, rp);
    if rp < |src| {
      var c := FirstAt(src, rp);
      var rest := CommandsAt(src, rp + Len(c));
      CommandsStep(src, rp);
      CompressStep(src, rp, room);
      assert ([c] + rest)[1..] == rest;
      if !NoRoom(room, Size(c)) {
        CompressWalks(src, rp + Len(c), Use(room, Size(c)));
      }
    }
  }

  /** How many of the leading commands fit, one after the other, in `n`
      bytes. */
  function Fitting(cmds: seq<Cmd>, n: nat): (k: nat)
    ensures k <= |cmds|
    decreases |cmds|
  {
    if cmds == [] || n < Size(cmds[0]) then 0 else 1 + Fitting(cmds[1..], n - Size(cmds[0]))
  }

  /** Fitting is the longest prefix whose framed size is at most `n`: the
      next command would overflow, and all commands fit exactly when their
      total size does. */
  lemma {:induction false} FittingBounds(cmds: seq<Cmd>, n: nat)
    ensures var k := Fitting(cmds, n);
      TotalSize(cmds[..k]) <= n && (k < |cmds| ==> n < TotalSize(cmds[..k]) + Size(cmds[k]))
    ensures Fitting(cmds, n) == |cmds| <==> TotalSize(cmds) <= n
    decreases |cmds|
  {
    if cmds != [] && Size(cmds[0]) <= n {
      var k := Fitting(cmds[1..], n - Size(cmds[0]));
      FittingBounds(cmds[1..], n - Size(cmds[0]));
      assert cmds[..k + 1] == [cmds[0]] + cmds[1..][..k];
      assert ([cmds[0]] + cmds[1..][..k])[1..] == cmds[1..][..k];
    } else if cmds != [] {
      assert cmds[..0] == [];
      TotalSizeAtLeastFirst(cmds);
    }
  }

  lemma TotalSizeAtLeastFirst(cmds: seq<Cmd>)
    requires cmds != []
    ensures Size(cmds[0]) <= TotalSize(cmds)
  {
  }

  /** With no room bound the walk writes every command. */
  lemma {:induction false} FrameWithinUnbounded(cmds: seq<Cmd>, rp: nat)
    requires AllFramable(cmds)
    ensures FrameWithin(cmds, rp, None) == Run(Frame(cmds), None)
    decreases |cmds|
  {
    if cmds != [] {
      FrameWithinUnbounded(cmds[1..], rp + Len(cmds[0]));
    }
  }

  /** With `n` bytes of room the walk writes exactly the commands that fit. */
  lemma {:induction false} FrameWithinFits(cmds: seq<Cmd>, rp: nat, n: nat)
    requires AllFramable(cmds)
    ensures var k := Fitting(cmds, n);
      AllFramable(cmds[..k]) && FrameWithin(cmds, rp, Some(n)).out == Frame(cmds[..k])
    decreases |cmds|
  {
    if cmds != [] && Size(cmds[0]) <= n {
      var c := cmds[0];
      var tail := cmds[1..];
      var j := Fitting(tail, n - Size(c));
      FrameWithinFits(tail, rp + Len(c), n - Size(c));
      FrameWithinStep(cmds, rp, Some(n));
      FittingStep(cmds, n);
      TakeCons(cmds, j);
      FrameCons(c, tail[..j]);
    } else if cmds != [] {
      assert cmds[..0] == [];
    }
  }

  /** ... and returns as its error the read position of the first command
      that does not fit, that is the start position plus the input the
      commands before it cover. */
  lemma {:induction false} FrameWithinStops(cmds: seq<Cmd>, rp: nat, n: nat)
    requires AllFramable(cmds)
    ensures var k := Fitting(cmds, n);
      FrameWithin(cmds, rp, Some(n)).err == if k == |cmds| then None else Some(rp + |Expand(cmds[..k])|)
    decreases |cmds|
  {
    if cmds != [] && Size(cmds[0]) <= n {
      var c := cmds[0];
      var tail := cmds[1..];
      var j := Fitting(tail, n - Size(c));
      FrameWithinStops(tail, rp + Len(c), n - Size(c));
      FrameWithinStep(cmds, rp, Some(n));
      FittingStep(cmds, n);
      TakeCons(cmds, j);
      ExpandCons(c, tail[..j]);
    } else if cmds != [] {
      assert cmds[..0] == [];
    }
  }

  /** Fitting one command at a time. */
  lemma FittingStep(cmds: seq<Cmd>, n: nat)
    requires cmds != [] && Size(cmds[0]) <= n
    ensures Fitting(cmds, n) == 1 + Fitting(cmds[1..], n - Size(cmds[0]))
  {
  }

  /** One step of the walk over a command list. */
  lemma FrameWithinStep(cmds: seq<Cmd>, rp: nat, room: Option<nat>)
    requires AllFramable(cmds) && cmds != [] && !NoRoom(room, Size(cmds[0]))
    ensures AllFramable(cmds[1..])
    ensures var rest := FrameWithin(cmds[1..], rp + Len(cmds[0]), Use(room, Size(cmds[0])));
      FrameWithin(cmds, rp, room) == Run(FrameCmd(cmds[0]) + rest.out, rest.err)
  {
  }

  /** A prefix of one more command than a prefix of the tail. */
  lemma TakeCons(cmds: seq<Cmd>, j: nat)
    requires j < |cmds|
    ensures cmds[..j + 1] == [cmds[0]] + cmds[1..][..j]
  {
  }

  /** Frame one command at a time. */
  lemma FrameCons(c: Cmd, rest: seq<Cmd>)
    requires Framable(c) && AllFramable(rest)
    ensures AllFramable([c] + rest)
    ensures Frame([c] + rest) == FrameCmd(c) + Frame(rest)
  {
    assert ([c] + rest)[1..] == rest;
  }

  /** The size probe of icns_compress returns the encoded length, and a
      call whose buffer holds at least that many bytes does what the probe
      does. */
  lemma CompressProbe(src: seq<uint8>, n: nat)
    ensures Result(CompressAt(src, 0, None)) == |Encode(src)|
    ensures |Encode(src)| <= n ==> CompressAt(src, 0, Some(n)) == CompressAt(src, 0, None)
  {
    var cmds := Commands(src);
    CommandsInLimits(src, 0);
    CompressWalks(src, 0, None);
    FrameWithinUnbounded(cmds, 0);
    if |Encode(src)| <= n {
      CompressWalks(src, 0, Some(n));
      FrameWithinFits(cmds, 0, n);
      FrameWithinStops(cmds, 0, n);
      FittingBounds(cmds, n);
      assert cmds[..|cmds|] == cmds;
    }
  }

  /** A call of icns_compress whose buffer is smaller than the encoding
      writes the commands that fit (FittingBounds) and returns an error,
      raised at the read position of the first command that does not fit. */
  lemma CompressOverflow(src: seq<uint8>, n: nat)
    requires |Encode(src)| > n
    ensures var cmds := Commands(src);
      var k := Fitting(cmds, n);
      var run := CompressAt(src, 0, Some(n));
      k < |cmds| && run.err == Some(|Expand(cmds[..k])|) && Result(run) < 0
  {
    var cmds := Commands(src);
    CommandsInLimits(src, 0);
    CompressWalks(src, 0, Some(n));
    FrameWithinStops(cmds, 0, n);
    FittingBounds(cmds, n);
  }

  /** DecodeAt one op at a time. */
  lemma DecodeStep(e: seq<uint8>, rp: nat)
    requires rp < |e|
    ensures Truncated(e, rp) ==> DecodeAt(e, rp) == Run([], Some(rp + 1))
    ensures !Truncated(e, rp) ==>
      var d := DecodeAt(e, NextAt(e, rp));
      DecodeAt(e, rp) == Run(PieceAt(e, rp) + d.out, d.err)
  {
  }

  /** DecompressAt one op at a time. */
  lemma DecompressStep(e: seq<uint8>, rp: nat, room: Option<nat>)
    requires rp < |e|
    ensures Truncated(e, rp) ==> DecompressAt(e, rp, room) == Run([], Some(rp + 1))
    ensures !Truncated(e, rp) && NoRoom(room, |PieceAt(e, rp)|) ==>
      DecompressAt(e, rp, room) == Run([], Some(rp + 1))
    ensures !Truncated(e, rp) && !NoRoom(room, |PieceAt(e, rp)|) ==>
      var rest := DecompressAt(e, NextAt(e, rp), Use(room, |PieceAt(e, rp)|));
      DecompressAt(e, rp, room) == Run(PieceAt(e, rp) + rest.out, rest.err)
  {
  }

  /** With no destination, icns_decompress decodes the whole stream. */
  lemma {:induction false} DecompressUnbounded(e: seq<uint8>, rp: nat)
    ensures DecompressAt(e, rp, None) == DecodeAt(e, rp)
    decreases |e| - rp
  {
    if rp < |e| {
      DecodeStep(e, rp);
      DecompressStep(e, rp, None);
      if !Truncated(e, rp) {
        DecompressUnbounded(e, NextAt(e, rp));
      }
    }
  }

  /** With room for everything the stream decodes to, icns_decompress
      behaves as with no destination, truncation errors included. */
  lemma {:induction false} DecompressRoomy(e: seq<uint8>, rp: nat, n: nat)
    requires |DecodeAt(e, rp).out| <= n
    ensures DecompressAt(e, rp, Some(n)) == DecodeAt(e, rp)
    decreases |e| - rp
  {
    if rp < |e| {
      DecodeStep(e, rp);
      DecompressStep(e, rp, Some(n));
      if !Truncated(e, rp) {
        DecompressRoomy(e, NextAt(e, rp), n - |PieceAt(e, rp)|);
      }
    }
  }

  /** With `n` bytes of room, icns_decompress never writes more than `n`
      bytes, and what it writes is a prefix of the decoding. */
  lemma {:induction false} DecompressWithin(e: seq<uint8>, rp: nat, n: nat)
    ensures var run := DecompressAt(e, rp, Some(n));
      |run.out| <= n && run.out <= DecodeAt(e, rp).out
    decreases |e| - rp
  {
    if rp < |e| {
      DecodeStep(e, rp);
      DecompressStep(e, rp, Some(n));
      if !Truncated(e, rp) && |PieceAt(e, rp)| <= n {
        var piece := PieceAt(e, rp);
        DecompressWithin(e, NextAt(e, rp), n - |piece|);
        PrefixCons(piece, DecompressAt(e, NextAt(e, rp), Some(n - |piece|)).out, DecodeAt(e, NextAt(e, rp)).out);
      }
    }
  }

  /** When a call of icns_decompress with `n` bytes of room does not do what
      the unbounded decoding does, it stopped for want of room: its error is
      the position after the op byte of a complete op whose piece does not
      fit in the room left. */
  lemma {:induction false} DecompressOverflow(e: seq<uint8>, rp: nat, n: nat)
    ensures var run := DecompressAt(e, rp, Some(n));
      run != DecodeAt(e, rp) ==>
        run.err.Some? && rp < run.err.value <= |e| &&
        !Truncated(e, run.err.value - 1) && n - |run.out| < |PieceAt(e, run.err.value - 1)|
    decreases |e| - rp
  {
    if rp < |e| {
      DecodeStep(e, rp);
      DecompressStep(e, rp, Some(n));
      if !Truncated(e, rp) && |PieceAt(e, rp)| <= n {
        DecompressOverflow(e, NextAt(e, rp), n - |PieceAt(e, rp)|);
      }
    }
  }

  /** The size probe of icns_decompress: with no destination it returns
      the decoded length or the truncation error, and a call whose buffer
      holds the decoded length does the same. */
  lemma DecompressProbe(e: seq<uint8>, n: nat)
    ensures DecompressAt(e, 0, None) == Decode(e)
    ensures |Decode(e).out| <= n ==> DecompressAt(e, 0, Some(n)) == Decode(e)
  {
    DecompressUnbounded(e, 0);
    if |Decode(e).out| <= n {
      DecompressRoomy(e, 0, n);
    }
  }

  // ---------------------------------------------------------------------------
  // One step of the compressor

  /** `op` and `cnt` are what one pass of icns_compress's loop body
      computes at `rp`: the op bytes it writes and the input it consumes. */
  predicate IsStep(src: seq<uint8>, rp: nat, op: seq<uint8>, cnt: nat)
    requires rp < |src|
  {
    var run := EqualPairs(src, rp, 129) + 1;
    if run >= 3 then cnt == run && op == [RepOp(cnt), src[rp]]
    else cnt == LiteralRun(src, rp, 128) && 1 <= cnt && op == [cnt - 1] + src[rp..rp + cnt]
  }

  /** One pass of the loop body produces the next framed command and moves
      past the bytes it covers. */
  lemma Step(src: seq<uint8>, rp: nat, op: seq<uint8>, cnt: nat)
    requires rp < |src| && IsStep(src, rp, op, cnt)
    ensures 1 <= cnt && rp + cnt <= |src|
    ensures cnt == Len(FirstAt(src, rp)) && op == FrameCmd(FirstAt(src, rp))
  {
    if EqualPairs(src, rp, 129) + 1 >= 3 {
      StepRep(src, rp, cnt);
    } else {
      StepCpy(src, rp, cnt);
    }
  }

  lemma StepRep(src: seq<uint8>, rp: nat, cnt: nat)
    requires rp < |src| && cnt == EqualPairs(src, rp, 129) + 1 && cnt >= 3
    ensures FirstAt(src, rp) == Rep(cnt, src[rp])
  {
  }

  lemma StepCpy(src: seq<uint8>, rp: nat, cnt: nat)
    requires rp < |src| && EqualPairs(src, rp, 129) < 2 && cnt == LiteralRun(src, rp, 128) && cnt >= 1
    ensures rp + cnt <= |src| && FirstAt(src, rp) == Cpy(src[rp..rp + cnt])
  {
  }

  // ---------------------------------------------------------------------------
  // The codec

  /** The do-while REP counter of icns_compress: 1..130 equal bytes. */
  method CountRun(src: seq<uint8>, rp: nat) returns (cnt: nat)
    requires rp < |src|
    ensures cnt == EqualPairs(src, rp, 129) + 1
  {
    cnt := 1;
    while rp + cnt < |src| && cnt < 130 && src[rp + cnt - 1] == src[rp + cnt]
      invariant 1 <= cnt <= 130 && rp + cnt <= |src|
      invariant EqualPairs(src, rp, 129) == cnt - 1 + EqualPairs(src, rp + cnt - 1, 130 - cnt)
    {
      cnt := cnt + 1;
    }
  }

  /** The literal scan of icns_compress. `repcnt` counts the equal pairs seen
      in a row; the second one ends the scan, which then backs off the three
      equal bytes. */
  method ScanLiterals(src: seq<uint8>, rp: nat) returns (cnt: nat)
    requires rp < |src|
    ensures cnt == LiteralRun(src, rp, 128)
  {
    cnt := 1;
    var repcnt := 0;
    while rp + cnt < |src| && cnt < 128
      invariant 1 <= cnt <= 128 && rp + cnt <= |src| && 0 <= repcnt <= 1 && repcnt < cnt
      invariant repcnt == 1 ==> src[rp + cnt - 2] == src[rp + cnt - 1]
      invariant LiteralRun(src, rp, 128) ==
        cnt - 1 - repcnt + LiteralRun(src, rp + cnt - 1 - repcnt, 129 - cnt + repcnt)
      decreases |src| - (rp + cnt)
    {
      if src[rp + cnt - 1] != src[rp + cnt] {
        repcnt := 0;
      } else {
        repcnt := repcnt + 1;
        if repcnt == 2 {
          break;
        }
      }
      cnt := cnt + 1;
    }
    if repcnt == 2 {
      cnt := cnt - 2;
    }
  }

  /** One pass of icns_compress's loop body: the op bytes it writes at `rp`
      and the number of input bytes they cover. */
  method NextOp(src: seq<uint8>, rp: nat) returns (op: seq<uint8>, cnt: nat)
    requires rp < |src|
    ensures IsStep(src, rp, op, cnt)
  {
    cnt := CountRun(src, rp);
    if cnt >= 3 {
      op := [RepOp(cnt), src[rp]];
    } else {
      LiteralRunStarts(src, rp);
      cnt := ScanLiterals(src, rp);
      op := [cnt - 1] + src[rp..rp + cnt];
    }
  }

  /** icns_compress: what it writes and returns is the run of CompressAt
      from the start, with `dlen` bytes of room when there is a destination
      and no bound when there is none. */
  method Compress(src: seq<uint8>, dest: array?<uint8>, dlen: nat) returns (r: int)
    requires dest != null ==> dlen <= dest.Length
    modifies dest
    ensures r == Result(CompressAt(src, 0, if dest != null then Some(dlen) else None))
    ensures dest != null ==> Holds(dest[..], old(dest[..]), dlen, CompressAt(src, 0, Some(dlen)).out)
  {
    ghost var before := if dest != null then dest[..] else [];
    ghost var room := if dest != null then Some(dlen) else None;
    ghost var whole := CompressAt(src, 0, room);
    ghost var out: seq<uint8> := [];
    var rp := 0;
    var wp := 0;
    while rp < |src|
      invariant rp <= |src| && wp == |out|
      invariant room == if dest != null then Some(dlen - wp) else None
      invariant Pending(whole, out, CompressAt(src, rp, room))
      invariant dest != null ==> wp <= dlen && Holds(dest[..], before, dlen, out)
      decreases |src| - rp
    {
      var op, cnt := CompressPass(src, rp, room, whole, out);
      if dest != null {
        if wp + |op| > dlen {
          r := ErrCode(rp);
          return;
        }
        Emit(dest, dlen, wp, op, before, out);
      }
      out := out + op;
      wp := wp + |op|;
      rp := rp + cnt;
      room := Use(room, |op|);
    }
    CompressDone(src, rp, room, whole, out);
    r := wp;
  }

  /** The choice of NextOp, with what it means for the run in progress. */
  method CompressPass(src: seq<uint8>, rp: nat, ghost room: Option<nat>, ghost whole: Run, ghost out: seq<uint8>)
    returns (op: seq<uint8>, cnt: nat)
    requires rp < |src| && Pending(whole, out, CompressAt(src, rp, room))
    ensures NoRoom(room, |op|) ==> whole == Run(out, Some(rp))
    ensures !NoRoom(room, |op|) ==>
      rp < rp + cnt <= |src| && Pending(whole, out + op, CompressAt(src, rp + cnt, Use(room, |op|)))
  {
    op, cnt := NextOp(src, rp);
    CompressKeeps(src, rp, room, whole, out, op, cnt);
  }

  /** One pass of the loop body of icns_compress: the command at `rp` does
      not fit and the run stops there, or it is written and the run goes on
      after it. */
  lemma CompressKeeps(src: seq<uint8>, rp: nat, room: Option<nat>, whole: Run, out: seq<uint8>,
                      op: seq<uint8>, cnt: nat)
    requires rp < |src| && IsStep(src, rp, op, cnt)
    requires Pending(whole, out, CompressAt(src, rp, room))
    ensures NoRoom(room, |op|) ==> whole == Run(out, Some(rp))
    ensures !NoRoom(room, |op|) ==>
      rp < rp + cnt <= |src| && Pending(whole, out + op, CompressAt(src, rp + cnt, Use(room, |op|)))
  {
    Step(src, rp, op, cnt);
    if !NoRoom(room, |op|) {
      var rest := CompressAt(src, rp + cnt, Use(room, |op|));
      assert CompressAt(src, rp, room) == Run(op + rest.out, rest.err);
      assert out + (op + rest.out) == (out + op) + rest.out;
    } else {
      assert CompressAt(src, rp, room) == Run([], Some(rp));
      assert out + [] == out;
    }
  }

  /** Past the end of the input the run is over. */
  lemma CompressDone(src: seq<uint8>, rp: nat, room: Option<nat>, whole: Run, out: seq<uint8>)
    requires rp >= |src| && Pending(whole, out, CompressAt(src, rp, room))
    ensures whole == Run(out, None)
  {
    assert out + [] == out;
  }

  /** The loop of icns_decompress before the write: `piece` and `next` for a
      complete op at `rp`, or `trunc` when the op lacks some of its bytes. */
  method NextPiece(src: seq<uint8>, rp: nat) returns (trunc: bool, piece: seq<uint8>, next: nat)
    requires rp < |src|
    ensures trunc == Truncated(src, rp)
    ensures !trunc ==> piece == PieceAt(src, rp) && next == NextAt(src, rp)
  {
    var b := src[rp];
    piece := [];
    next := rp + 1;
    if b >= 0x80 {
      var cnt := RepCount(b);
      trunc := !(next < |src|);
      if !trunc {
        piece := Repeat(cnt, src[next]);
        next := next + 1;
      }
    } else {
      var cnt := b + 1;
      trunc := !(next + cnt <= |src|);
      if !trunc {
        piece := src[next..next + cnt];
        next := next + cnt;
      }
    }
  }

  /** icns_decompress: what it writes and returns is the run of
      DecompressAt from the start, with `dlen` bytes of room when there is a
      destination and no bound when there is none. */
  method Decompress(src: seq<uint8>, dest: array?<uint8>, dlen: nat) returns (r: int)
    requires dest != null ==> dlen <= dest.Length
    modifies dest
    ensures r == Result(DecompressAt(src, 0, if dest != null then Some(dlen) else None))
    ensures dest != null ==> Holds(dest[..], old(dest[..]), dlen, DecompressAt(src, 0, Some(dlen)).out)
  {
    ghost var before := if dest != null then dest[..] else [];
    ghost var room := if dest != null then Some(dlen) else None;
    ghost var whole := DecompressAt(src, 0, room);
    ghost var out: seq<uint8> := [];
    var rp := 0;
    var wp := 0;
    while rp < |src|
      invariant rp <= |src| && wp == |out|
      invariant room == if dest != null then Some(dlen - wp) else None
      invariant Pending(whole, out, DecompressAt(src, rp, room))
      invariant dest != null ==> wp <= dlen && Holds(dest[..], before, dlen, out)
      decreases |src| - rp
    {
      var trunc, piece, next := DecompressPass(src, rp, room, whole, out);
      if trunc {
        r := ErrCode(rp + 1);
        return;
      }
      if dest != null {
        if wp + |piece| > dlen {
          r := ErrCode(rp + 1);
          return;
        }
        Emit(dest, dlen, wp, piece, before, out);
      }
      out := out + piece;
      wp := wp + |piece|;
      rp := next;
      room := Use(room, |piece|);
    }
    DecompressDone(src, rp, room, whole, out);
    r := wp;
  }

  /** The op NextPiece reads, with what it means for the run in progress. */
  method DecompressPass(src: seq<uint8>, rp: nat, ghost room: Option<nat>, ghost whole: Run, ghost out: seq<uint8>)
    returns (trunc: bool, piece: seq<uint8>, next: nat)
    requires rp < |src| && Pending(whole, out, DecompressAt(src, rp, room))
    ensures trunc || NoRoom(room, |piece|) ==> whole == Run(out, Some(rp + 1))
    ensures !trunc && !NoRoom(room, |piece|) ==>
      rp < next <= |src| && Pending(whole, out + piece, DecompressAt(src, next, Use(room, |piece|)))
  {
    trunc, piece, next := NextPiece(src, rp);
    DecompressKeeps(src, rp, room, whole, out, trunc, piece, next);
  }

  /** One pass of the loop body of icns_decompress: the op at `rp` is
      truncated or does not fit and the run stops there, or its piece is
      written and the run goes on after it. */
  lemma DecompressKeeps(src: seq<uint8>, rp: nat, room: Option<nat>, whole: Run, out: seq<uint8>,
                        trunc: bool, piece: seq<uint8>, next: nat)
    requires rp < |src| && trunc == Truncated(src, rp)
    requires !trunc ==> piece == PieceAt(src, rp) && next == NextAt(src, rp)
    requires Pending(whole, out, DecompressAt(src, rp, room))
    ensures trunc || NoRoom(room, |piece|) ==> whole == Run(out, Some(rp + 1))
    ensures !trunc && !NoRoom(room, |piece|) ==>
      rp < next <= |src| && Pending(whole, out + piece, DecompressAt(src, next, Use(room, |piece|)))
  {
    if trunc || NoRoom(room, |piece|) {
      assert DecompressAt(src, rp, room) == Run([], Some(rp + 1));
      assert out + [] == out;
    } else {
      var rest := DecompressAt(src, next, Use(room, |piece|));
      assert DecompressAt(src, rp, room) == Run(piece + rest.out, rest.err);
      assert out + (piece + rest.out) == (out + piece) + rest.out;
    }
  }

  /** Past the end of the input the run is over. */
  lemma DecompressDone(src: seq<uint8>, rp: nat, room: Option<nat>, whole: Run, out: seq<uint8>)
    requires rp >= |src| && Pending(whole, out, DecompressAt(src, rp, room))
    ensures whole == Run(out, None)
  {
    assert out + [] == out;
  }
}
