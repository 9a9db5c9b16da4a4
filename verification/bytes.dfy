/** Bytes, and the ASCII constants the encoders emit or test for. A Go
    `string` is a read-only byte sequence, so both `string` and `[]byte`
    become `seq<byte>` in this model. */
module Bytes {

  newtype byte = x: int | 0 <= x < 256

  /** The bytes of an ASCII literal. */
  function Ascii(s: string): seq<byte>
    requires forall i :: 0 <= i < |s| ==> s[i] as int < 128
  {
    seq(|s|, i requires 0 <= i < |s| => s[i] as int as byte)
  }

  const NUL: byte := 0
  const SQUOTE: byte := '\'' as int as byte
  const DQUOTE: byte := '"' as int as byte
  const BACKSLASH: byte := '\\' as int as byte
  const STAR: byte := '*' as int as byte
  const DOT: byte := '.' as int as byte
  const COMMA: byte := ',' as int as byte
  const MINUS: byte := '-' as int as byte
  const ZERO: byte := '0' as int as byte
}
