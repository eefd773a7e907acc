/** The per-byte op mappings of rle-genops.c: for PackBits and Goldbox, the
    decoding of one op byte into a command kind and count, the encoding of a
    command back into its op byte, the generator's check that every byte
    survives the round trip, and the lookup of a variant by name. */
module Genops {
  import opened Bytes
  import Names
  import Goldbox
  import Packbits

  /** The command kinds of this file, in their enum order. */
  datatype Op = CPY | REP | NOP

  /** A decoded op byte: kind and 8-bit count (`struct rle8`). */
  datatype Rle8 = Rle8(op: Op, cnt: uint8)

  /** The enum value of each command kind. */
  function Code(op: Op): (c: nat)
    ensures c < 3
  {
    match op
    case CPY => 0
    case REP => 1
    case NOP => 2
  }

  /** `rle_op_cstr` of this file: the name of an enum value, "UNKNOWN" for
      any other value. */
  function OpCstr(op: int): (name: string)
    ensures name == "UNKNOWN" <==> !(0 <= op < 3)
  {
    if op == 0 then "CPY"
    else if op == 1 then "REP"
    else if op == 2 then "NOP"
    else "UNKNOWN"
  }

  /** C's `~` on a value promoted to `int`. */
  function Complement(x: int): int
  {
    -x - 1
  }

  // ---------------------------------------------------------------------------
  // PackBits

  /** `rle8_decode_packbits`: above 128 a REP of `1 - (int8_t)b` stored as
      `uint8_t`, below 128 a CPY of `b + 1`, and 128 a NOP of count 1. */
  function DecodePackbits(b: uint8): (cmd: Rle8)
    ensures 1 <= cmd.cnt <= 128
    ensures b > 128 ==> cmd == Rle8(REP, 257 - b)
    ensures b < 128 ==> cmd == Rle8(CPY, b + 1)
    ensures b == 128 ==> cmd == Rle8(NOP, 1)
  {
    if b > 128 then Rle8(REP, ToByte(1 - Int8(b)))
    else if b < 128 then Rle8(CPY, ToByte(b + 1))
    else Rle8(NOP, 1)
  }

  /** `rle8_encode_packbits`, within its asserted domain (count 1..128): a
      REP is `257 - cnt` stored as `uint8_t`, a CPY `cnt - 1`, a NOP 0x80.
      Only a REP of at least 2 gives an op byte above 0x80, and the op byte
      of a CPY or of such a REP decodes back to the command. */
  function EncodePackbits(cmd: Rle8): (b: uint8)
    requires 1 <= cmd.cnt <= 128
    ensures b > 0x80 <==> cmd.op == REP && cmd.cnt >= 2
    ensures b == 0x80 <==> cmd.op == NOP
    ensures cmd.op == CPY || b > 0x80 ==> DecodePackbits(b) == cmd
  {
    match cmd.op
    case REP => ToByte(257 - cmd.cnt)
    case CPY => cmd.cnt - 1
    case NOP => 0x80
  }

  // ---------------------------------------------------------------------------
  // Goldbox

  /** `rle8_decode_goldbox`: with the top bit set a REP of `(~b) + 1` stored
      as `uint8_t`, otherwise a CPY of `b + 1`. */
  function DecodeGoldbox(b: uint8): (cmd: Rle8)
    ensures 1 <= cmd.cnt <= 128 && cmd.op != NOP
    ensures b >= 0x80 ==> cmd == Rle8(REP, 256 - b)
    ensures b < 0x80 ==> cmd == Rle8(CPY, b + 1)
  {
    if b >= 0x80 then Rle8(REP, ToByte(Complement(b) + 1))
    else Rle8(CPY, ToByte(b + 1))
  }

  /** `rle8_encode_goldbox`, within its asserted domain (REP or CPY, count
      1..128): a REP is `1 + ~cnt` stored as `uint8_t`, a CPY `cnt - 1`.
      The top bit marks the REP, and every op byte decodes back to its
      command. */
  function EncodeGoldbox(cmd: Rle8): (b: uint8)
    requires cmd.op != NOP && 1 <= cmd.cnt <= 128
    ensures b >= 0x80 <==> cmd.op == REP
    ensures DecodeGoldbox(b) == cmd
  {
    if cmd.op == REP then ToByte(1 + Complement(cmd.cnt)) else cmd.cnt - 1
  }

  // ---------------------------------------------------------------------------
  // The parsers table

  /** The two entries of `parsers`, each standing for its encode and decode
      functions. */
  datatype Variant = GoldboxOps | PackbitsOps

  /** `struct rle_parser`. */
  datatype Parser = Parser(name: string, variant: Variant)

  /** `parsers`, in its order. */
  const Parsers: seq<Parser> := [Parser("goldbox", GoldboxOps), Parser("packbits", PackbitsOps)]

  /** `p->rle8_decode`. */
  function Decode(v: Variant, b: uint8): (cmd: Rle8)
    ensures Accepts(v, cmd)
  {
    match v
    case GoldboxOps => DecodeGoldbox(b)
    case PackbitsOps => DecodePackbits(b)
  }

  /** What the asserts at the top of each encoder admit. */
  predicate Accepts(v: Variant, cmd: Rle8)
  {
    1 <= cmd.cnt <= 128 && (v == GoldboxOps ==> cmd.op != NOP)
  }

  /** `p->rle8_encode`. */
  function Encode(v: Variant, cmd: Rle8): uint8
    requires Accepts(v, cmd)
  {
    match v
    case GoldboxOps => EncodeGoldbox(cmd)
    case PackbitsOps => EncodePackbits(cmd)
  }

  /** Every byte re-encodes to itself, in both variants: the property
      `rle8_generate_ops` checks for all 256 op bytes. */
  lemma Recodes(v: Variant, b: uint8)
    ensures Encode(v, Decode(v, b)) == b
  {
  }

  /** Conversely, decoding the op byte of a command gives the command back,
      except that a PackBits REP must have a count of at least 2 and a NOP
      the count 1: `257 - 1` wraps to 0x00, the CPY of one byte. */
  lemma Redecodes(v: Variant, cmd: Rle8)
    requires Accepts(v, cmd)
    requires v == PackbitsOps ==> (cmd.op == REP ==> cmd.cnt >= 2) && (cmd.op == NOP ==> cmd.cnt == 1)
    ensures Decode(v, Encode(v, cmd)) == cmd
  {
  }

  /** The PackBits REP of one byte and the CPY of one byte share an op byte. */
  lemma PackbitsRepOneAliases()
    ensures EncodePackbits(Rle8(REP, 1)) == EncodePackbits(Rle8(CPY, 1)) == 0x00
  {
  }

  /** The mappings agree with the codecs: a REP op byte stands for the count
      the decompressors use, and the compressors write the op byte the
      encoder gives. */
  lemma AgreesWithCodecs(b: uint8, n: nat)
    ensures b > 0x80 ==> DecodePackbits(b) == Rle8(REP, Packbits.RepCount(b))
    ensures 2 <= n <= 128 ==> EncodePackbits(Rle8(REP, n)) == Packbits.RepOp(n)
    ensures b >= 0x80 ==> DecodeGoldbox(b) == Rle8(REP, Goldbox.RepCount(b))
    ensures 1 <= n <= 128 ==> EncodeGoldbox(Rle8(REP, n)) == Goldbox.RepOp(n)
  {
  }

  /** `rle8_generate_ops`: runs every op byte through decode then encode and
      reports 1 at the first one that does not come back, else 0. */
  method GenerateOps(p: Parser) returns (r: int)
    ensures r == 0 || r == 1
    ensures r == 0 <==> forall b: uint8 :: Encode(p.variant, Decode(p.variant, b)) == b
  {
    var i := 0;
    while i < 256
      invariant 0 <= i <= 256
      invariant forall b: uint8 :: b < i ==> Encode(p.variant, Decode(p.variant, b)) == b
    {
      var cmd := Decode(p.variant, i);
      var recode := Encode(p.variant, cmd);
      if i != recode {
        return 1;
      }
      i := i + 1;
    }
    return 0;
  }

  /** The names of `parsers`, in its order. */
  function ParserNames(): (names: seq<string>)
    ensures |names| == |Parsers| && forall i :: 0 <= i < |Parsers| ==> names[i] == Parsers[i].name
  {
    [Parsers[0].name, Parsers[1].name]
  }

  /** `get_parser_by_name`: the first entry with the given name, or None
      (NULL). */
  method GetParserByName(name: string) returns (p: Option<Parser>)
    ensures p.Some? <==> name == "goldbox" || name == "packbits"
    ensures p.Some? ==> p.value in Parsers && p.value.name == name
    ensures name == "goldbox" ==> p == Some(Parser("goldbox", GoldboxOps))
    ensures name == "packbits" ==> p == Some(Parser("packbits", PackbitsOps))
  {
    var i := Names.FindByName(ParserNames(), name);
    if i.Some? {
      p := Some(Parsers[i.value]);
    } else {
      p := None;
    }
  }
}
