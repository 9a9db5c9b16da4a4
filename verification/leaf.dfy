/** The small leaf encoders of types/append.go: the null rule, booleans and
    the inline error marker, each with the reader that recognises its text. */
module Leaf {
  import opened Bytes
  import opened Wrappers

  const KeywordNull: seq<byte> := Ascii("NULL")
  const KeywordTrue: seq<byte> := Ascii("TRUE")
  const KeywordFalse: seq<byte> := Ascii("FALSE")
  const MarkerOpen: seq<byte> := Ascii("?!(")
  const MarkerClose: byte := ')' as int as byte

  /** The null rule. Only in single-quoted literal mode (quote 1) is there
      SQL text for null; in every other mode the Go function returns a nil
      slice, so the caller's buffer is dropped as well, not just left as is. */
  function AppendNull(b: seq<byte>, quote: int): (r: seq<byte>)
    ensures quote == 1 ==> |r| == |b| + 4 && r[..|b|] == b && r[|b|..] == KeywordNull
    ensures quote != 1 ==> r == []
  {
    if quote == 1 then b + KeywordNull else []
  }

  /** Reads a boolean keyword back. */
  function ParseBool(t: seq<byte>): Option<bool> {
    if t == KeywordTrue then Some(true)
    else if t == KeywordFalse then Some(false)
    else None
  }

  /** Booleans become the upper-case keywords, whatever the quote mode. */
  function AppendBool(b: seq<byte>, v: bool): (r: seq<byte>)
    ensures |b| <= |r| && r[..|b|] == b
    ensures ParseBool(r[|b|..]) == Some(v)
  {
    var r := if v then b + KeywordTrue else b + KeywordFalse;
    assert r[|b|..] == if v then KeywordTrue else KeywordFalse;
    r
  }

  /** Reads an inline error marker back, giving the message inside it. */
  function ParseErrorMarker(t: seq<byte>): Option<seq<byte>> {
    if |t| >= |MarkerOpen| + 1 && t[..|MarkerOpen|] == MarkerOpen && t[|t| - 1] == MarkerClose
    then Some(t[|MarkerOpen|..|t| - 1])
    else None
  }

  /** A failing hook is rendered in place as `?!(message)` after the bytes
      already in the buffer. */
  function AppendError(b: seq<byte>, err: seq<byte>): (r: seq<byte>)
    ensures |b| <= |r| && r[..|b|] == b
    ensures ParseErrorMarker(r[|b|..]) == Some(err)
  {
    var r := b + MarkerOpen + err + [MarkerClose];
    assert r[|b|..] == MarkerOpen + err + [MarkerClose];
    r
  }

  /** Strips the single quotes that `appendBytes` and
      `AppendStringStringMap` put around their output in mode 1 only; in
      every other mode the text is taken as it is. */
  function UnwrapLiteral(t: seq<byte>, quote: int): Option<seq<byte>> {
    if quote != 1 then Some(t)
    else if |t| >= 2 && t[0] == SQUOTE && t[|t| - 1] == SQUOTE then Some(t[1..|t| - 1])
    else None
  }
}
