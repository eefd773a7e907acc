/** Run-length commands: the meaning shared by all four wire formats. An
    encoder first splits its input into commands, then frames each command in
    its variant's op bytes; a decoder recovers the expansion. */
module Cmds {
  import opened Bytes

  /** REP repeats one byte `count` times, CPY copies literal bytes verbatim,
      LIT is the single unframed literal byte of the PCX format. */
  datatype Cmd = Rep(count: nat, value: uint8) | Cpy(lits: seq<uint8>) | Lit(value: uint8)

  /** The number of input bytes one command covers. */
  function Len(c: Cmd): nat
  {
    match c
    case Rep(n, _) => n
    case Cpy(l) => |l|
    case Lit(_) => 1
  }

  /** The bytes one command stands for. */
  function ExpandCmd(c: Cmd): (r: seq<uint8>)
    ensures |r| == Len(c)
  {
    match c
    case Rep(n, v) => Repeat(n, v)
    case Cpy(l) => l
    case Lit(v) => [v]
  }

  /** The bytes a command sequence stands for. */
  function Expand(cmds: seq<Cmd>): seq<uint8>
    decreases |cmds|
  {
    if cmds == [] then [] else ExpandCmd(cmds[0]) + Expand(cmds[1..])
  }

  /** Framed size common to the four variants: a REP is an op byte and the
      repeated byte, a CPY an op byte and its literals, a LIT one byte. */
  function Size(c: Cmd): nat
  {
    match c
    case Rep(_, _) => 2
    case Cpy(l) => |l| + 1
    case Lit(_) => 1
  }

  function TotalSize(cmds: seq<Cmd>): nat
    decreases |cmds|
  {
    if cmds == [] then 0 else Size(cmds[0]) + TotalSize(cmds[1..])
  }

  /** Number of CPY commands (the table driver's bail-out counts these). */
  function CpyCount(cmds: seq<Cmd>): nat
    decreases |cmds|
  {
    if cmds == [] then 0 else (if cmds[0].Cpy? then 1 else 0) + CpyCount(cmds[1..])
  }

  lemma ExpandCons(c: Cmd, rest: seq<Cmd>)
    ensures Expand([c] + rest) == ExpandCmd(c) + Expand(rest)
    ensures TotalSize([c] + rest) == Size(c) + TotalSize(rest)
    ensures CpyCount([c] + rest) == (if c.Cpy? then 1 else 0) + CpyCount(rest)
  {
    assert ([c] + rest)[1..] == rest;
  }

  /** A non-empty byte sequence whose bytes all equal its first is a run of it. */
  lemma RepeatOfUniform(s: seq<uint8>, n: nat)
    requires 0 < n <= |s|
    requires forall i :: 0 <= i < n ==> s[i] == s[0]
    ensures Repeat(n, s[0]) == s[..n]
  {
  }
}
