/** A cursor over a byte sequence, standing in for the `internal/parser`
    package, which is not part of this model. What is assumed of it: `Valid`
    holds while bytes remain, `Read` returns the next byte and moves past it,
    and `Skip(c)` moves past the next byte and answers true only when that
    byte is `c`, leaving the cursor where it was otherwise. */
module Cursor {
  import opened Bytes

  datatype Parser = Parser(buf: seq<byte>, pos: nat) {

    predicate Valid() {
      pos < |buf|
    }

    function Read(): (byte, Parser)
      requires Valid()
    {
      (buf[pos], Parser(buf, pos + 1))
    }

    function Skip(c: byte): (bool, Parser) {
      if pos < |buf| && buf[pos] == c then (true, Parser(buf, pos + 1)) else (false, this)
    }

    /** The bytes not yet read. */
    function Rest(): seq<byte>
      requires pos <= |buf|
    {
      buf[pos..]
    }
  }

  /** A cursor at the start of `s`; `parser.New` and `parser.NewString`
      differ only in the Go type they accept. */
  function New(s: seq<byte>): Parser {
    Parser(s, 0)
  }
}
