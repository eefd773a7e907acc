/** The decode-table walker of rle-parser.c: `rle_parse` reads a stream op
    by op, looks each op byte up in a 256-entry table of commands and
    accounts the bytes the commands would produce, without producing them.
    The tables themselves (ops-goldbox.h, ops-packbits.h) are generated from
    the decoders of rle-genops.c, so they are a parameter here, and the
    lemmas at the end take the generated ones. */
module Parser {
  import opened Bytes
  import Genops
  import Goldbox
  import Packbits

  /** The command kinds of rle-parser.c, in their enum order. */
  datatype TblOp = CPY | REP | NOP | INVALID

  /** One table entry (`struct rle8`). */
  datatype Entry = Entry(op: TblOp, cnt: uint8)

  /** The enum value of each command kind. */
  function Code(op: TblOp): (c: nat)
    ensures c < 4
  {
    match op
    case CPY => 0
    case REP => 1
    case NOP => 2
    case INVALID => 3
  }

  /** `rle_op_cstr` of this file: the name of an enum value, "UNKNOWN" for
      any other value. */
  function OpCstr(op: int): (name: string)
    ensures name == "UNKNOWN" <==> !(0 <= op < 4)
  {
    if op == 0 then "CPY"
    else if op == 1 then "REP"
    else if op == 2 then "NOP"
    else if op == 3 then "INVALID"
    else "UNKNOWN"
  }

  /** The input a valid entry consumes: its op byte, then a CPY's `cnt`
      literals, or one byte more for a REP or a NOP. */
  function Consumed(en: Entry): (n: nat)
    requires en.op != INVALID
    ensures n >= 1
  {
    if en.op == CPY then 1 + en.cnt else 2
  }

  /** The output a valid entry accounts: its count, nothing for a NOP. */
  function Produced(en: Entry): nat
  {
    if en.op == NOP then 0 else en.cnt
  }

  /** How a walk ends (the C return value) and the output it accounted. */
  datatype Parsed = Parsed(status: int, size: nat)

  /** What `rle_parse` does from `rp` on with `bail` commands left before
      the bail-out: -2 at an INVALID entry, -3 once the last command allowed
      is taken, and at the end of the input 0 when the commands tile it
      exactly and -1 when the last one ran past it. */
  function ParseAt(tbl: seq<Entry>, e: seq<uint8>, rp: nat, bail: nat): (p: Parsed)
    requires |tbl| == 256 && bail >= 1
    ensures p.status == 0 || p.status == -1 || p.status == -2 || p.status == -3
    ensures p.status == -2 ==> exists j :: rp <= j < |e| && tbl[e[j]].op == INVALID
    decreases |e| - rp
  {
    if rp >= |e| then Parsed(if rp == |e| then 0 else -1, 0)
    else
      var en := tbl[e[rp]];
      if en.op == INVALID then Parsed(-2, 0)
      else if bail == 1 then Parsed(-3, Produced(en))
      else
        var rest := ParseAt(tbl, e, rp + Consumed(en), bail - 1);
        Parsed(rest.status, Produced(en) + rest.size)
  }

  /** `n` more bytes accounted in front of a walk. */
  function After(n: nat, p: Parsed): Parsed
  {
    Parsed(p.status, n + p.size)
  }

  /** `rle_parse`, its printing left out: the return value, and the output
      size `wp` it accounts (the value it prints at the end). */
  method RleParse(data: seq<uint8>, tbl: seq<Entry>) returns (r: int, wp: nat)
    requires |tbl| == 256
    ensures Parsed(r, wp) == ParseAt(tbl, data, 0, 8192)
  {
    ghost var whole := ParseAt(tbl, data, 0, 8192);
    var rp := 0;
    wp := 0;
    var bailout := 8192;
    while rp < |data|
      invariant 1 <= bailout <= 8192
      invariant whole == After(wp, ParseAt(tbl, data, rp, bailout))
      decreases |data| - rp
    {
      var b := data[rp];
      var op := tbl[b];
      if op.op != INVALID {
        rp := rp + 1;
        if op.op == CPY {
          rp := rp + op.cnt;
          wp := wp + op.cnt;
        } else if op.op == REP {
          rp := rp + 1;
          wp := wp + op.cnt;
        } else if op.op == NOP {
          rp := rp + 1;
        }
      } else {
        return -2, wp;
      }
      bailout := bailout - 1;
      if bailout == 0 {
        return -3, wp;
      }
    }
    if rp != |data| {
      return -1, wp;
    }
    return 0, wp;
  }

  // ---------------------------------------------------------------------------
  // The generated tables

  /** The table entry rle-genops.c generates for a decoded op byte. */
  function EntryOf(cmd: Genops.Rle8): Entry
  {
    var op := match cmd.op
      case CPY => CPY
      case REP => REP
      case NOP => NOP;
    Entry(op, cmd.cnt)
  }

  /** `tbl` is the table rle-genops.c generates for a variant: entry `b` is
      the decoding of the op byte `b`. */
  predicate Generated(tbl: seq<Entry>, v: Genops.Variant)
  {
    |tbl| == 256 && forall b: uint8 :: tbl[b] == EntryOf(Genops.Decode(v, b))
  }

  /** The number of ops the PackBits and Goldbox decompressors read from
      `rp` on: an op byte with the top bit set takes two bytes, any other
      op byte `b` takes `b + 2`. */
  function OpCount(e: seq<uint8>, rp: nat): nat
    decreases |e| - rp
  {
    if rp >= |e| then 0
    else 1 + OpCount(e, rp + if e[rp] >= 0x80 then 2 else e[rp] + 2)
  }

  /** Walking a stream with the generated PackBits table agrees with
      packbits_decompress: it never meets an INVALID entry; it succeeds only
      on a stream the decompressor reads exactly to its end, accounting the
      decompressed size; and it reports the overrun only on a stream that is
      not. On a stream it accepts the walk returns 0 unless the stream
      holds at least `bail` ops, when it bails out with -3. */
  lemma {:induction false} ParsePackbits(tbl: seq<Entry>, e: seq<uint8>, rp: nat, bail: nat)
    requires Generated(tbl, Genops.PackbitsOps) && bail >= 1 && rp <= |e|
    ensures var p := ParseAt(tbl, e, rp, bail); p.status == 0 || p.status == -1 || p.status == -3
    ensures var p := ParseAt(tbl, e, rp, bail);
      p.status == 0 ==> Packbits.WellFormedAt(e, rp) && p.size == |Packbits.DecodeAt(e, rp)|
    ensures ParseAt(tbl, e, rp, bail).status == -1 ==> !Packbits.WellFormedAt(e, rp)
    ensures Packbits.WellFormedAt(e, rp) ==>
      ParseAt(tbl, e, rp, bail).status == if OpCount(e, rp) < bail then 0 else -3
    decreases |e| - rp
  {
    if rp < |e| {
      var en := tbl[e[rp]];
      assert en == EntryOf(Genops.Decode(Genops.PackbitsOps, e[rp]));
      var next := rp + Consumed(en);
      assert next == rp + if e[rp] >= 0x80 then 2 else e[rp] + 2;
      if bail > 1 && next <= |e| {
        ParsePackbits(tbl, e, next, bail - 1);
      }
    }
  }

  /** The same for the generated Goldbox table and goldbox_decompress. */
  lemma {:induction false} ParseGoldbox(tbl: seq<Entry>, e: seq<uint8>, rp: nat, bail: nat)
    requires Generated(tbl, Genops.GoldboxOps) && bail >= 1 && rp <= |e|
    ensures var p := ParseAt(tbl, e, rp, bail); p.status == 0 || p.status == -1 || p.status == -3
    ensures var p := ParseAt(tbl, e, rp, bail);
      p.status == 0 ==> Goldbox.WellFormedAt(e, rp) && p.size == |Goldbox.DecodeAt(e, rp)|
    ensures ParseAt(tbl, e, rp, bail).status == -1 ==> !Goldbox.WellFormedAt(e, rp)
    ensures Goldbox.WellFormedAt(e, rp) ==>
      ParseAt(tbl, e, rp, bail).status == if OpCount(e, rp) < bail then 0 else -3
    decreases |e| - rp
  {
    if rp < |e| {
      var en := tbl[e[rp]];
      assert en == EntryOf(Genops.Decode(Genops.GoldboxOps, e[rp]));
      var next := rp + Consumed(en);
      assert next == rp + if e[rp] >= 0x80 then 2 else e[rp] + 2;
      if bail > 1 && next <= |e| {
        ParseGoldbox(tbl, e, next, bail - 1);
      }
    }
  }
}
