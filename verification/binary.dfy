/** The binary encoder, `appendBytes` (types/append.go:128-147): a nil slice
    follows the null rule, a present one (even empty) becomes `\x` and its
    lowercase hex text, single-quoted in mode 1 only. */
module Binary {
  import opened Bytes
  import opened Wrappers
  import opened Leaf
  import Hex

  const HexPrefix: seq<byte> := [BACKSLASH, 'x' as int as byte]

  /** Reads the text of a present byte slice back. */
  function DecodeBytea(t: seq<byte>, quote: int): Option<seq<byte>> {
    match UnwrapLiteral(t, quote)
    case Some(u) => if |u| >= 2 && u[..2] == HexPrefix then Hex.Decode(u[2..]) else None
    case None => None
  }

  /** `x` is None for a nil slice. */
  function AppendBytes(b: seq<byte>, x: Option<seq<byte>>, quote: int): (r: seq<byte>)
    ensures x.None? ==> r == AppendNull(b, quote)
    ensures x.Some? ==> |b| <= |r| && r[..|b|] == b
    ensures x.Some? ==> DecodeBytea(r[|b|..], quote) == Some(x.value)
    ensures x.Some? ==> |r| == |b| + |HexPrefix| + 2 * |x.value| + (if quote == 1 then 2 else 0)
    ensures x == Some([]) && quote == 1 ==> r == b + [SQUOTE] + HexPrefix + [SQUOTE]
    ensures x == Some([]) && quote != 1 ==> r == b + HexPrefix
  {
    match x
    case None => AppendNull(b, quote)
    case Some(v) =>
      var h := HexPrefix + Hex.Encode(v);
      var t := if quote == 1 then [SQUOTE] + h + [SQUOTE] else h;
      Hex.DecodeEncode(v);
      assert (b + t)[|b|..] == t;
      assert quote == 1 ==> t[1..|t| - 1] == h;
      assert h[..2] == HexPrefix && h[2..] == Hex.Encode(v);
      b + t
  }
}
