/** The registry of rle-variant-selection.h: the four codecs by name, each
    with its compressor and decompressor, and the lookup by name. */
module Variants {
  import opened Bytes
  import Names
  import Goldbox
  import Packbits
  import Pcx
  import Icns

  /** The codec whose compress and decompress functions an entry holds. */
  datatype Codec = GoldboxCodec | PackbitsCodec | PcxCodec | IcnsCodec

  /** `struct rle_t`. */
  datatype Variant = Variant(name: string, codec: Codec)

  /** `rle_variants`, in its order. */
  const Variants: seq<Variant> := [
    Variant("goldbox", GoldboxCodec),
    Variant("packbits", PackbitsCodec),
    Variant("pcx", PcxCodec),
    Variant("icns", IcnsCodec)
  ]

  /** The names of `rle_variants`, in its order. */
  function VariantNames(): (names: seq<string>)
    ensures |names| == |Variants| && forall i :: 0 <= i < |Variants| ==> names[i] == Variants[i].name
  {
    [Variants[0].name, Variants[1].name, Variants[2].name, Variants[3].name]
  }

  /** `get_rle_by_name`: the entry with the given name, or None (NULL). */
  method GetRleByName(name: string) returns (v: Option<Variant>)
    ensures v.Some? <==> name == "goldbox" || name == "packbits" || name == "pcx" || name == "icns"
    ensures v.Some? ==> v.value in Variants && v.value.name == name
    ensures name == "pcx" ==> v == Some(Variant("pcx", PcxCodec))
    ensures name == "icns" ==> v == Some(Variant("icns", IcnsCodec))
  {
    var i := Names.FindByName(VariantNames(), name);
    if i.Some? {
      v := Some(Variants[i.value]);
    } else {
      v := None;
    }
  }

  /** What `compress` returns when called without a buffer: the size of
      the compressed stream, or for ICNS the error code of an input it
      cannot encode. */
  function CompressedSize(c: Codec, src: seq<uint8>): int
  {
    match c
    case GoldboxCodec => |Goldbox.Encode(src)|
    case PackbitsCodec => |Packbits.Encode(src)|
    case PcxCodec => |Pcx.Encode(src)|
    case IcnsCodec => Icns.Result(Icns.CompressAt(src, 0, None))
  }

  /** A call through an entry's `compress` field. */
  method Compress(v: Variant, src: seq<uint8>, dest: array?<uint8>, dlen: nat) returns (r: int)
    requires dest != null ==> dlen <= dest.Length
    modifies dest
    ensures dest == null ==> r == CompressedSize(v.codec, src)
  {
    match v.codec
    case GoldboxCodec =>
      r := Goldbox.Compress(src, dest, dlen);
    case PackbitsCodec =>
      r := Packbits.Compress(src, dest, dlen);
    case PcxCodec =>
      r := Pcx.Compress(src, dest, dlen);
    case IcnsCodec =>
      r := Icns.Compress(src, dest, dlen);
  }

  /** The inputs a decompressor is modelled on: Goldbox and PackBits read
      a stream whose last command is complete. */
  predicate Decodable(c: Codec, src: seq<uint8>)
  {
    match c
    case GoldboxCodec => Goldbox.WellFormed(src)
    case PackbitsCodec => Packbits.WellFormed(src)
    case PcxCodec => true
    case IcnsCodec => true
  }

  /** What `decompress` returns when called without a buffer: the size of
      the decompressed data, or for ICNS the error code of a stream it
      cannot decode. */
  function DecompressedSize(c: Codec, src: seq<uint8>): int
    requires Decodable(c, src)
  {
    match c
    case GoldboxCodec => |Goldbox.Decode(src)|
    case PackbitsCodec => |Packbits.Decode(src)|
    case PcxCodec => |Pcx.Decode(src)|
    case IcnsCodec => Icns.Result(Icns.DecompressAt(src, 0, None))
  }

  /** A call through an entry's `decompress` field. */
  method Decompress(v: Variant, src: seq<uint8>, dest: array?<uint8>, dlen: nat) returns (r: int)
    requires Decodable(v.codec, src)
    requires dest != null ==> dlen <= dest.Length
    modifies dest
    ensures dest == null ==> r == DecompressedSize(v.codec, src)
  {
    match v.codec
    case GoldboxCodec =>
      r := Goldbox.Decompress(src, dest, dlen);
    case PackbitsCodec =>
      r := Packbits.Decompress(src, dest, dlen);
    case PcxCodec =>
      r := Pcx.Decompress(src, dest, dlen);
    case IcnsCodec =>
      r := Icns.Decompress(src, dest, dlen);
  }

  /** The compressed stream of each codec. */
  function Compressed(c: Codec, src: seq<uint8>): seq<uint8>
  {
    match c
    case GoldboxCodec => Goldbox.Encode(src)
    case PackbitsCodec => Packbits.Encode(src)
    case PcxCodec => Pcx.Encode(src)
    case IcnsCodec => Icns.Encode(src)
  }

  /** Every codec of the registry round-trips: the size `compress` reports
      without a buffer is that of the compressed stream, which its
      `decompress` accepts and reports the size of the input for, and the
      stream decodes to the input. */
  lemma RoundTrip(c: Codec, src: seq<uint8>)
    ensures CompressedSize(c, src) == |Compressed(c, src)|
    ensures Decodable(c, Compressed(c, src)) && DecompressedSize(c, Compressed(c, src)) == |src|
  {
    match c
    case GoldboxCodec =>
      Goldbox.RoundTrip(src);
    case PackbitsCodec =>
      Packbits.RoundTrip(src);
    case PcxCodec =>
      Pcx.RoundTrip(src);
    case IcnsCodec =>
      Icns.CompressProbe(src, 0);
      Icns.RoundTrip(src);
      Icns.DecompressProbe(Icns.Encode(src), 0);
  }
}
