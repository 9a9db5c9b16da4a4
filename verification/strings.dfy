/** The string encoder (`AppendString`, types/append.go:84-126) and, as the
    reference it is proved against, readers for the two quoted forms it
    writes: a single-quoted SQL literal and a double-quoted, backslash-escaped
    string. Quote modes stay plain integers compared exactly as the Go code
    compares them: 1 is the literal form, 2 the double-quoted form, and any
    other value writes no opening delimiter. */
module Strings {
  import opened Bytes
  import opened Wrappers

  /** `s` with every NUL byte removed and all other bytes kept in order. */
  function RemoveNul(s: seq<byte>): (r: seq<byte>)
    ensures NUL !in r
    ensures |r| <= |s|
    decreases |s|
  {
    if s == [] then []
    else (if s[0] == NUL then [] else [s[0]]) + RemoveNul(s[1..])
  }

  /** What one input byte becomes. The tests run in the order of the Go loop:
      NUL first, then the single quote for every mode from 1 up, then the
      double quote and the backslash for mode 2 only. */
  function Escape(c: byte, quote: int): seq<byte> {
    if c == NUL then []
    else if quote >= 1 && c == SQUOTE then [SQUOTE, SQUOTE]
    else if quote == 2 && c == DQUOTE then [BACKSLASH, DQUOTE]
    else if quote == 2 && c == BACKSLASH then [BACKSLASH, BACKSLASH]
    else [c]
  }

  /** The escaped bytes the loop writes between the delimiters. */
  function Body(s: seq<byte>, quote: int): seq<byte>
    decreases |s|
  {
    if s == [] then [] else Escape(s[0], quote) + Body(s[1..], quote)
  }

  /** The opening delimiter tests `quote == 2`. */
  function OpenDelimiter(quote: int): seq<byte> {
    if quote == 2 then [DQUOTE] else if quote == 1 then [SQUOTE] else []
  }

  /** The closing delimiter tests `quote >= 2`, so every mode above 2 gets a
      closing `"` that nothing opened. */
  function CloseDelimiter(quote: int): seq<byte> {
    if quote >= 2 then [DQUOTE] else if quote == 1 then [SQUOTE] else []
  }

  /** Appends `s` escaped and delimited for the quote mode. What the text
      means is stated by the lemmas below: `AppendStringBounds` for every
      mode, `PlainMode`, `LiteralMode`, `QuotedMode` and `HighModeUnbalanced`
      for each range of modes. */
  function AppendString(b: seq<byte>, s: seq<byte>, quote: int): seq<byte> {
    b + OpenDelimiter(quote) + Body(s, quote) + CloseDelimiter(quote)
  }

  /** Escaping drops NUL bytes and at most doubles every other byte. */
  lemma {:induction false} BodyBounds(s: seq<byte>, quote: int)
    ensures NUL !in Body(s, quote)
    ensures |RemoveNul(s)| <= |Body(s, quote)| <= 2 * |s|
    decreases |s|
  {
    if s != [] {
      BodyBounds(s[1..], quote);
      assert Body(s, quote) == Escape(s[0], quote) + Body(s[1..], quote);
      assert RemoveNul(s) == (if s[0] == NUL then [] else [s[0]]) + RemoveNul(s[1..]);
    }
  }

  /** In every mode the buffer is kept as a prefix, no NUL byte is appended,
      and at most two bytes per input byte plus two delimiters are added. */
  lemma AppendStringBounds(b: seq<byte>, s: seq<byte>, quote: int)
    ensures var r := AppendString(b, s, quote);
      && |b| <= |r| && r[..|b|] == b
      && NUL !in r[|b|..]
      && |r| <= |b| + 2 * |s| + 2
  {
    BodyBounds(s, quote);
    var t := OpenDelimiter(quote) + Body(s, quote) + CloseDelimiter(quote);
    assert AppendString(b, s, quote) == b + t;
    assert (b + t)[|b|..] == t;
  }

  /** In modes 0 and below nothing is wrapped and only NUL bytes are
      dropped. */
  lemma PlainMode(b: seq<byte>, s: seq<byte>, quote: int)
    requires quote <= 0
    ensures AppendString(b, s, quote) == b + RemoveNul(s)
  {
    PlainBody(s, quote);
  }

  /** Mode 1 writes a single-quoted SQL literal that reads back as `s`
      without its NUL bytes; in particular every quote inside is doubled. */
  lemma LiteralMode(b: seq<byte>, s: seq<byte>)
    ensures DecodeLiteral(AppendString(b, s, 1)[|b|..]) == Some(RemoveNul(s))
  {
    var t := [SQUOTE] + Body(s, 1) + [SQUOTE];
    assert AppendString(b, s, 1)[|b|..] == t by {
      DropPrefix(b, t);
    }
    EncodedFacts(s, 1);
  }

  /** Mode 2 writes a double-quoted string that reads back as `s` without
      its NUL bytes, with `"`, `\` and `'` escaped. */
  lemma QuotedMode(b: seq<byte>, s: seq<byte>)
    ensures DecodeQuoted(AppendString(b, s, 2)[|b|..]) == Some(RemoveNul(s))
  {
    var t := [DQUOTE] + Body(s, 2) + [DQUOTE];
    assert AppendString(b, s, 2)[|b|..] == t by {
      DropPrefix(b, t);
    }
    EncodedFacts(s, 2);
  }

  lemma DropPrefix(b: seq<byte>, t: seq<byte>)
    ensures (b + t)[|b|..] == t
  {
  }

  lemma EncodedFacts(s: seq<byte>, quote: int)
    ensures quote == 1 ==> DecodeLiteral([SQUOTE] + Body(s, 1) + [SQUOTE]) == Some(RemoveNul(s))
    ensures quote == 2 ==> DecodeQuoted([DQUOTE] + Body(s, 2) + [DQUOTE]) == Some(RemoveNul(s))
  {
    if quote == 1 {
      LiteralRoundTrip(s, []);
      assert ([SQUOTE] + Body(s, 1) + [SQUOTE])[1..] == Body(s, 1) + [SQUOTE] + [];
    } else if quote == 2 {
      QuotedRoundTrip(s, []);
      assert ([DQUOTE] + Body(s, 2) + [DQUOTE])[1..] == Body(s, 2) + [DQUOTE] + [];
    }
  }

  // Readers for the two quoted forms. Each returns the text read and the
  // bytes that follow the closing delimiter.

  function Prepend(c: byte, o: Option<(seq<byte>, seq<byte>)>): Option<(seq<byte>, seq<byte>)> {
    match o
    case Some((v, rest)) => Some(([c] + v, rest))
    case None => None
  }

  /** Reads the inside of a single-quoted literal: `''` stands for one quote
      and a lone `'` closes the literal. */
  function LiteralTail(t: seq<byte>): (r: Option<(seq<byte>, seq<byte>)>)
    ensures r.Some? ==> |r.value.1| < |t|
    decreases |t|
  {
    if |t| == 0 then None
    else if t[0] == SQUOTE then
      if |t| > 1 && t[1] == SQUOTE then Prepend(SQUOTE, LiteralTail(t[2..]))
      else Some(([], t[1..]))
    else Prepend(t[0], LiteralTail(t[1..]))
  }

  function ParseLiteral(t: seq<byte>): (r: Option<(seq<byte>, seq<byte>)>)
    ensures r.Some? ==> |r.value.1| < |t|
  {
    if |t| > 0 && t[0] == SQUOTE then LiteralTail(t[1..]) else None
  }

  /** The text of a single-quoted literal that spans all of `t`. */
  function DecodeLiteral(t: seq<byte>): Option<seq<byte>> {
    match ParseLiteral(t)
    case Some((v, rest)) => if rest == [] then Some(v) else None
    case None => None
  }

  /** Reads the inside of a double-quoted string: `\"` and `\\` stand for the
      escaped byte, `''` for one single quote, and an unescaped `"` closes
      the string; a lone `'` or any other backslash pair is rejected. */
  function QuotedTail(t: seq<byte>): (r: Option<(seq<byte>, seq<byte>)>)
    ensures r.Some? ==> |r.value.1| < |t|
    decreases |t|
  {
    if |t| == 0 then None
    else if t[0] == DQUOTE then Some(([], t[1..]))
    else if t[0] == BACKSLASH then
      if |t| > 1 && (t[1] == DQUOTE || t[1] == BACKSLASH) then Prepend(t[1], QuotedTail(t[2..]))
      else None
    else if t[0] == SQUOTE then
      if |t| > 1 && t[1] == SQUOTE then Prepend(SQUOTE, QuotedTail(t[2..]))
      else None
    else Prepend(t[0], QuotedTail(t[1..]))
  }

  function ParseQuoted(t: seq<byte>): (r: Option<(seq<byte>, seq<byte>)>)
    ensures r.Some? ==> |r.value.1| < |t|
  {
    if |t| > 0 && t[0] == DQUOTE then QuotedTail(t[1..]) else None
  }

  /** The text of a double-quoted string that spans all of `t`. */
  function DecodeQuoted(t: seq<byte>): Option<seq<byte>> {
    match ParseQuoted(t)
    case Some((v, rest)) => if rest == [] then Some(v) else None
    case None => None
  }

  /** Mode 1 round trip, for any bytes after the literal that do not start
      with a quote: reading the escaped body and its closing quote gives `s`
      without its NUL bytes, and stops exactly at the closing quote. */
  lemma {:induction false} LiteralRoundTrip(s: seq<byte>, rest: seq<byte>)
    requires rest == [] || rest[0] != SQUOTE
    ensures LiteralTail(Body(s, 1) + [SQUOTE] + rest) == Some((RemoveNul(s), rest))
    decreases |s|
  {
    var t := Body(s, 1) + [SQUOTE] + rest;
    if s == [] {
      assert t == [SQUOTE] + rest;
      assert t[1..] == rest;
    } else {
      var c := s[0];
      var tail := Body(s[1..], 1) + [SQUOTE] + rest;
      LiteralRoundTrip(s[1..], rest);
      assert t == Escape(c, 1) + tail;
      if c == SQUOTE {
        assert t[2..] == tail;
      } else if c != NUL {
        assert Escape(c, 1) == [c];
        assert t[0] == c && t[1..] == tail;
        assert LiteralTail(t) == Prepend(c, LiteralTail(tail));
        assert RemoveNul(s) == [c] + RemoveNul(s[1..]);
      } else {
        assert t == tail;
        assert RemoveNul(s) == RemoveNul(s[1..]);
      }
    }
  }

  /** Mode 2 round trip: reading the escaped body and its closing `"` gives
      `s` without its NUL bytes and leaves whatever follows untouched. */
  lemma {:induction false} QuotedRoundTrip(s: seq<byte>, rest: seq<byte>)
    ensures QuotedTail(Body(s, 2) + [DQUOTE] + rest) == Some((RemoveNul(s), rest))
    decreases |s|
  {
    var t := Body(s, 2) + [DQUOTE] + rest;
    if s == [] {
      assert t == [DQUOTE] + rest;
      assert t[1..] == rest;
    } else {
      var c := s[0];
      var tail := Body(s[1..], 2) + [DQUOTE] + rest;
      QuotedRoundTrip(s[1..], rest);
      assert t == Escape(c, 2) + tail;
      if c == SQUOTE || c == DQUOTE || c == BACKSLASH {
        assert t[2..] == tail;
      } else if c != NUL {
        assert Escape(c, 2) == [c];
        assert t[0] == c && t[1..] == tail;
        assert QuotedTail(t) == Prepend(c, QuotedTail(tail));
        assert RemoveNul(s) == [c] + RemoveNul(s[1..]);
      } else {
        assert t == tail;
        assert RemoveNul(s) == RemoveNul(s[1..]);
      }
    }
  }

  lemma QuotedBodyRoundTrip(s: seq<byte>, rest: seq<byte>)
    ensures ParseQuoted([DQUOTE] + Body(s, 2) + [DQUOTE] + rest) == Some((RemoveNul(s), rest))
  {
    var t := [DQUOTE] + Body(s, 2) + [DQUOTE];
    assert (t + rest)[1..] == Body(s, 2) + [DQUOTE] + rest;
    QuotedRoundTrip(s, rest);
  }

  /** The mode 2 text read back from the front, for any bytes after it. */
  lemma ParseQuotedString(s: seq<byte>, rest: seq<byte>)
    ensures ParseQuoted(AppendString([], s, 2) + rest) == Some((RemoveNul(s), rest))
  {
    QuotedForm(s);
    QuotedBodyRoundTrip(s, rest);
  }

  /** The encoder only appends: its output is the buffer followed by what it
      would write into an empty one. */
  lemma AppendStringShift(b: seq<byte>, s: seq<byte>, quote: int)
    ensures AppendString(b, s, quote) == b + AppendString([], s, quote)
  {
  }

  lemma QuotedForm(s: seq<byte>)
    ensures AppendString([], s, 2) == [DQUOTE] + Body(s, 2) + [DQUOTE]
  {
  }

  /** In modes 0 and below only NUL bytes are touched. */
  lemma {:induction false} PlainBody(s: seq<byte>, quote: int)
    requires quote <= 0
    ensures Body(s, quote) == RemoveNul(s)
    decreases |s|
  {
    if s != [] {
      PlainBody(s[1..], quote);
    }
  }

  /** Escaping is per byte, so the body of a concatenation is the
      concatenation of the bodies. */
  lemma {:induction false} BodyConcat(s1: seq<byte>, s2: seq<byte>, quote: int)
    ensures Body(s1 + s2, quote) == Body(s1, quote) + Body(s2, quote)
    decreases |s1|
  {
    if s1 == [] {
      assert s1 + s2 == s2;
    } else {
      var e := Escape(s1[0], quote);
      calc {
        Body(s1 + s2, quote);
        e + Body((s1 + s2)[1..], quote);
        { assert (s1 + s2)[1..] == s1[1..] + s2; }
        e + Body(s1[1..] + s2, quote);
        { BodyConcat(s1[1..], s2, quote); }
        e + (Body(s1[1..], quote) + Body(s2, quote));
        (e + Body(s1[1..], quote)) + Body(s2, quote);
      }
    }
  }

  /** Above mode 2 the loop escapes as in mode 1. */
  lemma {:induction false} HighModeBody(s: seq<byte>, quote: int)
    requires quote >= 3
    ensures Body(s, quote) == Body(s, 1)
    decreases |s|
  {
    if s != [] {
      HighModeBody(s[1..], quote);
    }
  }

  /** Modes above 2 double single quotes as in mode 1 but write no opening
      delimiter and still write a closing `"`, so the appended text is
      unbalanced. */
  lemma HighModeUnbalanced(b: seq<byte>, s: seq<byte>, quote: int)
    requires quote >= 3
    ensures AppendString(b, s, quote) == b + Body(s, 1) + [DQUOTE]
  {
    HighModeBody(s, quote);
  }
}
