/** Byte-level vocabulary shared by the codecs: the 8-bit byte, the C integer
    conversions the sources rely on, and the bounded write loop that every
    codec uses to fill its destination buffer. */
module Bytes {

  /** An unsigned 8-bit value (C `uint8_t`). */
  type uint8 = x: int | 0 <= x < 256

  datatype Option<T> = None | Some(value: T)

  /** Conversion of any C integer to `uint8_t`: reduction modulo 256. */
  function ToByte(x: int): (b: uint8)
    ensures 0 <= x < 256 ==> b == x
    ensures -256 <= x < 0 ==> b == x + 256
    ensures 0 <= x ==> b <= x
  {
    x % 256
  }

  /** Reading a `uint8_t` as `int8_t` (two's complement). */
  function Int8(b: uint8): (v: int)
    ensures -128 <= v < 128
    ensures ToByte(v) == b
  {
    if b < 128 then b else b - 256
  }

  /** `s[i]` has a successor and differs from it. Quantifying over this
      predicate instead of over `s[i] != s[i + 1]` keeps each index term from
      producing the next one. */
  predicate DiffersFromNext(s: seq<uint8>, i: int)
  {
    0 <= i < |s| - 1 && s[i] != s[i + 1]
  }

  /** Adjacency in `s` seen from `s[1..]`. */
  lemma DiffersFromNextTail(s: seq<uint8>)
    requires |s| > 0
    ensures forall i :: 1 <= i ==> (DiffersFromNext(s, i) <==> DiffersFromNext(s[1..], i - 1))
    ensures forall j :: 0 <= j ==> (DiffersFromNext(s[1..], j) <==> DiffersFromNext(s, j + 1))
  {
  }

  /** `n` copies of the byte `v`. */
  function Repeat(n: nat, v: uint8): (r: seq<uint8>)
    ensures |r| == n
    ensures forall i :: 0 <= i < n ==> r[i] == v
  {
    seq(n, _ => v)
  }

  /** What a destination buffer holds after a run that has produced `out`
      while clipping every write to `dlen`: the first `min(|out|, dlen)`
      cells hold `out`, every other cell still holds what it held in `before`. */
  ghost predicate Holds(after: seq<uint8>, before: seq<uint8>, dlen: nat, out: seq<uint8>)
  {
    && |after| == |before|
    && forall k :: 0 <= k < |after| ==>
         after[k] == if k < dlen && k < |out| then out[k] else before[k]
  }

  /** The bounded copy loop of the codecs (`for (i = 0; i < cnt && at + i < dlen; ++i)
      dest[at + i] = data[i]`): copies `data` to `dest[at..]`, never touching a cell
      at or beyond `dlen`. */
  method CopyClipped(dest: array<uint8>, dlen: nat, at: nat, data: seq<uint8>)
    requires dlen <= dest.Length
    modifies dest
    ensures forall k :: 0 <= k < dest.Length ==>
      dest[k] == if at <= k < at + |data| && k < dlen then data[k - at] else old(dest[k])
  {
    var i := 0;
    while i < |data| && at + i < dlen
      invariant 0 <= i <= |data|
      invariant i == 0 || at + i <= dlen
      invariant forall k :: 0 <= k < dest.Length ==>
        dest[k] == if at <= k < at + i then data[k - at] else old(dest[k])
    {
      dest[at + i] := data[i];
      i := i + 1;
    }
  }

  /** Appending the bytes of one command to the output, written clipped at
      `dlen`, keeps `Holds`. */
  lemma HoldsExtend(after: seq<uint8>, before: seq<uint8>, dlen: nat, out: seq<uint8>,
                    mid: seq<uint8>, piece: seq<uint8>)
    requires Holds(mid, before, dlen, out)
    requires |after| == |mid|
    requires forall k :: 0 <= k < |after| ==>
      after[k] == if |out| <= k < |out| + |piece| && k < dlen then piece[k - |out|] else mid[k]
    ensures Holds(after, before, dlen, out + piece)
  {
  }

  /** Appends `data` to the output a codec has produced so far, writing it at
      `wp == |out|` through the bounded copy loop. */
  method Emit(dest: array<uint8>, dlen: nat, wp: nat, data: seq<uint8>,
              ghost before: seq<uint8>, ghost out: seq<uint8>)
    requires dlen <= dest.Length && wp == |out|
    requires Holds(dest[..], before, dlen, out)
    modifies dest
    ensures Holds(dest[..], before, dlen, out + data)
  {
    ghost var mid := dest[..];
    CopyClipped(dest, dlen, wp, data);
    HoldsExtend(dest[..], before, dlen, out, mid, data);
  }

  /** Moving one piece from the unprocessed rest to the output. */
  lemma Advance(whole: seq<uint8>, out: seq<uint8>, rest: seq<uint8>, piece: seq<uint8>, next: seq<uint8>)
    requires whole == out + rest && rest == piece + next
    ensures whole == (out + piece) + next
  {
  }

  /** Putting the same bytes in front of a prefix and of what it is a
      prefix of. */
  lemma PrefixCons(p: seq<uint8>, a: seq<uint8>, b: seq<uint8>)
    requires a <= b
    ensures p + a <= p + b
  {
    assert (p + b)[..|p + a|] == p + b[..|a|];
  }

  /** When the loop stops, the output produced so far is a prefix of the whole;
      all of it when nothing is left. */
  lemma Finish(whole: seq<uint8>, out: seq<uint8>, rest: seq<uint8>)
    requires whole == out + rest
    ensures |out| <= |whole| && whole[..|out|] == out
    ensures rest == [] ==> whole == out
    ensures rest != [] ==> |out| < |whole|
  {
  }
}
