/** The value dispatcher `Append` (types/append.go:13-56) with the two
    capability paths it falls back on, `appendAppender` and
    `appendDriverValuer` (types/append.go:175-181, 234-240). */
module Dispatch {
  import opened Bytes
  import opened Wrappers
  import opened Decimal
  import opened Leaf
  import opened Strings
  import opened Binary

  /** The values the dispatcher resolves. Every signed integer width is
      widened to `int64` and every unsigned one to `uint64` before it is
      formatted, so one variant each stands for all of them. `ByteSlice(None)`
      is a nil `[]byte`, which is typed and so reaches the byte-sequence case
      rather than the nil case. An `Appender` is a value that appends
      itself; a `Valuer` produces another value or fails. */
  datatype Value =
    | Null
    | Bool(flag: bool)
    | Int(i: int64)
    | Uint(u: uint64)
    | Text(s: seq<byte>)
    | ByteSlice(x: Option<seq<byte>>)
    | Appender(appendValue: (seq<byte>, int) -> Result<seq<byte>, seq<byte>>)
    | Valuer(value: Result<Value, seq<byte>>)

  /** Appends the SQL text of `v`, chosen by the first case that matches. */
  function Append(b: seq<byte>, v: Value, quote: int): seq<byte>
    decreases v
  {
    match v
    case Null => AppendNull(b, quote)
    case Bool(flag) => AppendBool(b, flag)
    case Int(i) => b + FormatInt(i as int)
    case Uint(u) => b + FormatNat(u as int)
    case Text(s) => AppendString(b, s, quote)
    case ByteSlice(x) => AppendBytes(b, x, quote)
    case Appender(f) => AppendAppender(b, f, quote)
    case Valuer(r) =>
      (match r
       case Err(e) => AppendError(b, e)
       case Ok(w) => Append(b, w, quote))
  }

  /** A self-appending value gets the buffer and the mode; what it returns
      replaces the buffer, and a failure becomes an error marker after the
      original buffer. */
  function AppendAppender(b: seq<byte>, f: (seq<byte>, int) -> Result<seq<byte>, seq<byte>>, quote: int): (r: seq<byte>)
    ensures f(b, quote).Ok? ==> r == f(b, quote).value
    ensures f(b, quote).Err? ==> |b| <= |r| && r[..|b|] == b && ParseErrorMarker(r[|b|..]) == Some(f(b, quote).error)
  {
    match f(b, quote)
    case Ok(bb) => bb
    case Err(e) => AppendError(b, e)
  }

  /** The value a chain of valuers finally produces, or the first failure. */
  function Underlying(v: Value): (r: Result<Value, seq<byte>>)
    ensures r.Ok? ==> !r.value.Valuer?
    decreases v
  {
    match v
    case Valuer(r) =>
      (match r
       case Err(e) => Err(e)
       case Ok(w) => Underlying(w))
    case _ => Ok(v)
  }

  /** A value that renders as SQL null. */
  predicate IsNullish(w: Value) {
    w.Null? || w == ByteSlice(None)
  }

  /** What the appended text `t` means for a built-in value `w` in mode
      `quote`, stated through the decoders of each encoder. */
  predicate Denotes(t: seq<byte>, w: Value, quote: int) {
    match w
    case Null => quote == 1 && t == KeywordNull
    case Bool(flag) => ParseBool(t) == Some(flag)
    case Int(i) => ParseInt(t) == Some(i as int)
    case Uint(u) => ParseNat(t) == Some(u as int)
    case Text(s) =>
      if quote == 1 then DecodeLiteral(t) == Some(RemoveNul(s))
      else if quote == 2 then DecodeQuoted(t) == Some(RemoveNul(s))
      else if quote <= 0 then t == RemoveNul(s)
      else t == Body(s, 1) + [DQUOTE]
    case ByteSlice(x) =>
      if x.None? then quote == 1 && t == KeywordNull else DecodeBytea(t, quote) == Some(x.value)
    case Appender(_) => false
    case Valuer(_) => false
  }

  /** Following valuers is transparent: the dispatcher appends what the
      chain finally produces, or an error marker for its first failure. */
  lemma {:induction false} ValuerChain(b: seq<byte>, v: Value, quote: int)
    ensures Underlying(v).Err? ==> Append(b, v, quote) == AppendError(b, Underlying(v).error)
    ensures Underlying(v).Ok? ==> Append(b, v, quote) == Append(b, Underlying(v).value, quote)
    decreases v
  {
    if v.Valuer? && v.value.Ok? {
      ValuerChain(b, v.value.value, quote);
    }
  }

  /** A built-in value is appended after the buffer, and the appended text
      decodes back to it. */
  lemma BuiltinMeaning(b: seq<byte>, w: Value, quote: int)
    requires !w.Appender? && !w.Valuer?
    requires !(IsNullish(w) && quote != 1)
    ensures var r := Append(b, w, quote);
      |b| <= |r| && r[..|b|] == b && Denotes(r[|b|..], w, quote)
  {
    var r := Append(b, w, quote);
    match w
    case Null =>
    case Bool(_) =>
    case Int(i) =>
      assert r[|b|..] == FormatInt(i as int);
      ParseFormatInt(i as int);
    case Uint(u) =>
      assert r[|b|..] == FormatNat(u as int);
      ParseFormatNat(u as int);
    case Text(s) =>
      AppendStringBounds(b, s, quote);
      if quote == 1 {
        LiteralMode(b, s);
      } else if quote == 2 {
        QuotedMode(b, s);
      } else if quote <= 0 {
        PlainMode(b, s, quote);
        assert r[|b|..] == RemoveNul(s);
      } else {
        HighModeUnbalanced(b, s, quote);
        assert r[|b|..] == Body(s, 1) + [DQUOTE];
      }
    case ByteSlice(_) =>
  }

  /** The whole dispatcher: unless a self-appending value is reached, or a
      null-like value outside mode 1 discards the buffer, the original
      buffer is kept and the appended text means the underlying value or
      the valuer's failure. */
  lemma AppendMeaning(b: seq<byte>, v: Value, quote: int)
    requires Underlying(v).Ok? ==> !Underlying(v).value.Appender?
    requires Underlying(v).Ok? ==> !(IsNullish(Underlying(v).value) && quote != 1)
    ensures var r := Append(b, v, quote);
      |b| <= |r| && r[..|b|] == b &&
      match Underlying(v)
      case Ok(w) => Denotes(r[|b|..], w, quote)
      case Err(e) => ParseErrorMarker(r[|b|..]) == Some(e)
  {
    ValuerChain(b, v, quote);
    if Underlying(v).Ok? {
      BuiltinMeaning(b, Underlying(v).value, quote);
    }
  }

  /** Outside mode 1 a null-like value, reached directly or through
      valuers, returns Go's nil slice: the buffer passed in is dropped. */
  lemma NullDiscards(b: seq<byte>, v: Value, quote: int)
    requires Underlying(v).Ok? && IsNullish(Underlying(v).value)
    requires quote != 1
    ensures Append(b, v, quote) == []
  {
    ValuerChain(b, v, quote);
  }
}
