/** Lowercase hexadecimal text of a byte sequence, as `encoding/hex` writes
    it, and the decoder that reads it back. */
module Hex {
  import opened Bytes
  import opened Wrappers

  predicate IsLowerHex(c: byte) {
    '0' as int <= c as int <= '9' as int || 'a' as int <= c as int <= 'f' as int
  }

  /** The character for a nibble: `0`-`9`, then `a`-`f`. */
  function HexDigit(n: nat): (c: byte)
    requires n < 16
    ensures IsLowerHex(c)
  {
    if n < 10 then ('0' as int + n) as byte else ('a' as int + n - 10) as byte
  }

  /** The nibble a lowercase hex character stands for; upper case and every
      other byte are rejected. */
  function HexValue(c: byte): (r: Option<nat>)
    ensures r.Some? <==> IsLowerHex(c)
    ensures r.Some? ==> r.value < 16 && HexDigit(r.value) == c
  {
    if '0' as int <= c as int <= '9' as int then Some(c as int - '0' as int)
    else if 'a' as int <= c as int <= 'f' as int then Some(c as int - 'a' as int + 10)
    else None
  }

  /** Two characters per byte, high nibble first. */
  function Encode(x: seq<byte>): (r: seq<byte>)
    ensures |r| == 2 * |x|
    ensures forall i :: 0 <= i < |r| ==> IsLowerHex(r[i])
    decreases |x|
  {
    if x == [] then []
    else [HexDigit(x[0] as int / 16), HexDigit(x[0] as int % 16)] + Encode(x[1..])
  }

  /** Reads hex text back; odd length or a non-hex character gives None. */
  function Decode(h: seq<byte>): Option<seq<byte>>
    decreases |h|
  {
    if |h| == 0 then Some([])
    else if |h| == 1 then None
    else
      match (HexValue(h[0]), HexValue(h[1]), Decode(h[2..]))
      case (Some(hi), Some(lo), Some(rest)) => Some([(hi * 16 + lo) as byte] + rest)
      case _ => None
  }

  /** Decoding the hex text of `x` gives `x` back. */
  lemma {:induction false} DecodeEncode(x: seq<byte>)
    ensures Decode(Encode(x)) == Some(x)
    decreases |x|
  {
    if x != [] {
      var h := Encode(x);
      DecodeEncode(x[1..]);
      assert h[2..] == Encode(x[1..]);
      assert HexValue(h[0]) == Some(x[0] as int / 16);
      assert HexValue(h[1]) == Some(x[0] as int % 16);
      assert [x[0]] + x[1..] == x;
    }
  }

  /** Every text the decoder accepts is exactly the encoding of what it
      decodes to: lowercase hex text has one reading and one writing. */
  lemma {:induction false} EncodeDecode(h: seq<byte>, x: seq<byte>)
    requires Decode(h) == Some(x)
    ensures Encode(x) == h
    decreases |h|
  {
    if |h| >= 2 {
      var hi := HexValue(h[0]).value;
      var lo := HexValue(h[1]).value;
      var rest := Decode(h[2..]).value;
      EncodeDecode(h[2..], rest);
      assert x == [(hi * 16 + lo) as byte] + rest;
      assert x[1..] == rest;
      assert [h[0], h[1]] + h[2..] == h;
    }
  }
}
