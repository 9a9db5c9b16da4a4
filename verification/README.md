# SQL value encoding of `types/append.go`, in Dafny

This project models the value encoder of the Go PostgreSQL client `pg`
(`types/append.go`). The encoder appends the SQL text of a Go value to a byte
buffer. An integer `quote` selects the rendering mode, and each function
reads it in its own way:

- `AppendString` (types/append.go:84-126): mode 1 writes a single-quoted SQL
  literal; mode 2 writes a double-quoted, backslash-escaped string, as used
  inside hstore text; modes 3 and above double `'` as mode 1 does and then
  write a closing `"` (lines 98, 119); modes 0 and below copy the text raw.
- `appendField` (types/append.go:191-232): mode 1 writes each path segment
  as a double-quoted identifier, leading `*` left bare; every other mode
  copies the path raw.
- `AppendNull` (types/append.go:65-71) writes `NULL` in mode 1 and returns
  nil in every other mode.
- `appendBytes` and `AppendStringStringMap` (types/append.go:128-173) wrap
  their text in single quotes in mode 1 only. The map's keys and values are
  always written in mode 2 (lines 159, 161).

The modules follow the file's functions:

| module | models |
|---|---|
| `Leaf` (leaf.dfy) | `AppendNull`, `appendBool`, `appendError` |
| `Decimal` (decimal.dfy) | base-10 `strconv.AppendInt` / `AppendUint` |
| `Hex` (hex.dfy) | lowercase `encoding/hex` |
| `Binary` (binary.dfy) | `appendBytes` |
| `Strings` (strings.dfy) | `AppendString` |
| `StringMap` (stringmap.dfy) | `AppendStringStringMap` |
| `Cursor` (cursor.dfy) | the byte cursor of `internal/parser` that `appendField` uses |
| `PathLayout` (pathlayout.dfy) | the segment-by-segment layout a mode-1 identifier path should have, defined independently of `appendField` |
| `Field` (field.dfy) | `AppendField`, `AppendFieldBytes`, `appendField` |
| `Dispatch` (dispatch.dfy) | `Append`, `appendAppender`, `appendDriverValuer` |

Go `string` and `[]byte` are both `seq<byte>`. A nil slice or nil map is
`None` of an `Option`. Each encoder is paired with a reader written
independently of it:

- a SQL literal reader and a double-quoted string reader;
- a strict decimal parser and a hex decoder;
- a `\x` bytea reader and an hstore-style `"k"=>"v",…` reader;
- a SQL identifier unquoter, and a layout of identifier paths defined
  segment by segment.

Lemmas prove that the encoder's output reads back to the input. For the
decimal parser (`Decimal.FormatParseNat`, `Decimal.FormatParseInt`) and the
hex decoder (`Hex.EncodeDecode`) they also prove the converse: every text
the reader accepts is the encoding of what it reads. The other readers have
no converse. The literal and double-quoted readers, for one, accept NUL
bytes, which the encoder never writes.

Two behaviours of the code are worth stating. The model follows the code in
both:

- One might expect `AppendNull` outside mode 1 to return the buffer
  unchanged. It returns Go's nil slice instead (types/append.go:69), so the
  caller's buffer is dropped.
  `Leaf.AppendNull` and `Dispatch.NullDiscards` state this.
- `AppendString` closes with `"` for every mode of 2 and above but opens with
  `"` only in mode 2. In modes 3 and above the output therefore has a closing
  `"` and no opening one (`Strings.HighModeUnbalanced`). Within
  types/append.go the only constant mode passed is 2 (lines 159, 161); the
  exported functions forward whatever mode their callers give.

`internal/parser` is not part of this model. `Cursor.Parser` assumes only
what `appendField` uses:

- `Valid` holds while bytes remain;
- `Read` returns the next byte and advances;
- `Skip(c)` advances only past a `c`.

## Model

| member | source | states |
|---|---|---|
| `Leaf.AppendNull` | types/append.go:65-71 | In mode 1 the buffer is kept and followed by exactly `NULL`; in every other mode the result is the empty (nil) slice, whatever the buffer held |
| `Leaf.AppendBool` | types/append.go:73-78 | The buffer is kept and the appended keyword reads back as the same boolean |
| `Leaf.AppendError` | types/append.go:58-63 | The buffer is kept and the appended `?!(`…`)` marker reads back as the error message |
| `Decimal.FormatNat` | types/append.go:29-38 | Unsigned text is at least one decimal digit, with no leading zero unless the value is 0 |
| `Decimal.FormatInt` | types/append.go:19-28 | Signed text is non-empty and starts with `-` exactly when the value is negative |
| `Decimal.ParseFormatNat` | types/append.go:29-38 | The text appended for an unsigned integer parses back to the same number |
| `Decimal.FormatParseNat` | types/append.go:29-38 | Conversely, any text the strict parser accepts is exactly the text written for its value, so the rendering is canonical |
| `Decimal.ParseFormatInt` | types/append.go:19-28 | The text appended for a signed integer parses back to the same number |
| `Decimal.FormatParseInt` | types/append.go:19-28 | Any signed text the strict parser accepts, which excludes `-0` and leading zeros, is exactly the rendering of its value |
| `Hex.Encode` | types/append.go:137-138 | Each byte becomes exactly two lowercase hex digits |
| `Hex.DecodeEncode` | types/append.go:137-138 | Decoding the hex text gives back the bytes |
| `Hex.EncodeDecode` | types/append.go:137-138 | Any text the decoder accepts is the encoding of what it decodes to |
| `Binary.AppendBytes` | types/append.go:128-147 | A nil slice follows the null rule. A present slice keeps the buffer and appends text that the bytea reader decodes back to the slice. That text is `\x` plus two digits per byte, plus two quotes in mode 1. An empty slice gives `\x` or `'\x'` |
| `Strings.AppendString` | types/append.go:84-126 | No contract of its own: it is the buffer, the opening delimiter, the escaped body and the closing delimiter. What it promises is stated by `Strings.AppendStringBounds`, `Strings.PlainMode`, `Strings.LiteralMode`, `Strings.QuotedMode` and `Strings.HighModeUnbalanced` |
| `Strings.BodyBounds` | types/append.go:91-119 | Escaping never emits a NUL and writes between one byte per non-NUL input byte and two per input byte |
| `Strings.AppendStringBounds` | types/append.go:84-126 | In every mode the buffer is kept, no NUL is appended, and at most 2·len(s)+2 bytes are added |
| `Strings.PlainMode` | types/append.go:84-126 | In modes 0 and below the input is copied without delimiters or escapes, minus its NUL bytes |
| `Strings.LiteralMode` | types/append.go:84-126 | Mode 1 text reads back, as a single-quoted SQL literal, as the input minus its NUL bytes |
| `Strings.QuotedMode` | types/append.go:84-126 | Mode 2 text reads back, as a double-quoted backslash-escaped string, as the input minus its NUL bytes |
| `Strings.HighModeUnbalanced` | types/append.go:84-126 | In modes 3 and above there is no opening delimiter: the mode-1 escapes are followed by a lone closing `"` |
| `Strings.LiteralRoundTrip` | types/append.go:91-101 | Provided what follows does not start with `'`, the literal reader consumes exactly the escaped body and its closing quote and leaves what follows untouched |
| `Strings.QuotedRoundTrip` | types/append.go:91-119 | The double-quoted reader consumes exactly the escaped body and its closing quote and leaves what follows untouched |
| `Strings.BodyConcat` | types/append.go:91-119 | Escaping works byte by byte: the escaped concatenation is the concatenation of the escaped parts |
| `Strings.ParseQuotedString` | types/append.go:84-126 | A mode-2 string followed by any text is read back exactly, with the text after it left for the next reader |
| `StringMap.AppendStringStringMap` | types/append.go:149-173 | A nil map follows the null rule. A present map keeps the buffer and appends its entries joined by commas, wrapped in single quotes in mode 1 only. An empty map gives `''` in mode 1 and nothing otherwise |
| `StringMap.EntriesLoop` | types/append.go:158-163 | No contract of its own: the `range` loop over the entries in one iteration order. `StringMap.StripOnlyLoopComma` and `StringMap.LoopThenStrip` state what it writes |
| `StringMap.AppendEntry` | types/append.go:159-162 | No contract of its own: one turn of the loop. `StringMap.EntryLayout` states that it appends the key and value in mode 2 with `=>` between them and a comma after, and `StringMap.EntriesRoundTrip` that this reads back |
| `StringMap.LoopThenStrip` | types/append.go:158-166 | Writing every entry followed by a comma and then cutting the last byte yields the entries joined by commas |
| `StringMap.StripOnlyLoopComma` | types/append.go:158-165 | After a non-empty loop the last byte is the comma of the last entry, so the strip removes nothing else |
| `StringMap.EntriesRoundTrip` | types/append.go:158-166 | The joined entries read back as the same keys and values, minus NUL bytes, in iteration order |
| `StringMap.MapRoundTrip` | types/append.go:149-173 | For every mode and buffer, the appended map text decodes back to its entries |
| `StringMap.CleanPermutation` | types/append.go:158 | Two iteration orders of the same entries read back to the same multiset of entries |
| `StringMap.MapOrderIrrelevant` | types/append.go:158 | The decoded map is independent of Go's iteration order, up to the order of entries |
| `Field.AppendField` | types/append.go:183-189 | Outside mode 1 the path is appended unchanged. In mode 1 the buffer is kept, the appended text is the segment-wise layout of the path, and it unquotes back to the path |
| `Field.FieldLayout` | types/append.go:191-232 | In mode 1 the path is split at every `.`; each `.` stays outside quotes; in each segment the leading `*` are bare and the rest is one double-quoted identifier with `"` doubled; a segment after a `.` that does not start with `*` is quoted even when empty. So `"a"."b"` and `"a.b"` are told apart |
| `Field.UnquotedFrom` | types/append.go:191-232 | From a position outside quotes, the output is the current segment's bare stars and quoted rest, followed by the layout of the segments after it |
| `Field.QuotedFrom` | types/append.go:191-232 | From a position inside an open quote, the output is the rest of the current segment with `"` doubled, its closing quote, then the layout of the segments after it |
| `Field.AfterDotFrom` | types/append.go:204-215 | Right after a `.`, a `*` is written bare and anything else opens a quote, and in both cases the output is the layout of the following segments |
| `PathLayout.JoinSplit` | types/append.go:204-215 | Splitting a path at its dots and joining the segments with dots gives back the path, so the layout accounts for every byte |
| `PathLayout.SplitLayout` | types/append.go:204-215 | Splitting the path at every `.`, rendering each segment and joining with `.` gives the same text as rendering it segment by segment from the front, as the loop walks it |
| `PathLayout.SplitSegmentsDotFree` | types/append.go:204-215 | No segment of the split contains a `.`, so every `.` of the path is a separator written outside quotes |
| `Field.FieldLoop` | types/append.go:191-232 | No contract of its own: the `appendField` loop, carrying the cursor and the quoting state. `Field.FieldPlain`, `Field.FieldRoundTrip`, `Field.FieldLayout`, `Field.UnquotedFrom`, `Field.QuotedFrom`, `Field.AfterDotFrom` and `Field.DotStep` state what it writes |
| `Field.FieldPlain` | types/append.go:191-232 | Outside mode 1 no quote is opened and every byte, `.` and `*` included, is copied |
| `Field.FieldRoundTrip` | types/append.go:191-232 | In mode 1, from either quoting state, the emitted text unquotes back to the remaining path. So opening and closing quotes alternate, every opened quote is closed, and an embedded `"` is doubled |
| `Field.DotStep` | types/append.go:204-215 | In mode 1, whether or not a quote is open, the text written for a `.` and the rest of the path unquotes back to the `.` and that rest. This covers both the `*` that `Skip` takes and the newly opened quote |
| `Field.ExampleDotted` | types/append.go:191-232 | `a.b` becomes `"a"."b"` in mode 1 |
| `Field.ExampleStar` | types/append.go:191-232 | `a.*` becomes `"a".*` in mode 1 |
| `Field.ExampleLoneStar` | types/append.go:191-232 | A lone `*` stays unquoted in mode 1 |
| `Field.ExampleEmbeddedQuote` | types/append.go:191-232 | `a"b` becomes `"a""b"` in mode 1 |
| `Dispatch.Append` | types/append.go:13-56 | No contract of its own: the type switch. `Dispatch.BuiltinMeaning`, `Dispatch.AppendMeaning`, `Dispatch.ValuerChain`, `Dispatch.NullDiscards` and `Dispatch.AppendAppender` state what it writes |
| `Dispatch.AppendAppender` | types/append.go:234-240 | A self-appending value's result replaces the buffer. On failure, the buffer is kept and followed by an error marker that reads back as the failure |
| `Dispatch.ValuerChain` | types/append.go:175-181 | A chain of valuers is transparent: the result is that of the value finally produced, or the error marker of the first failure |
| `Dispatch.BuiltinMeaning` | types/append.go:13-52 | For every built-in value, except a null-like one outside mode 1, the buffer is kept and the appended text reads back as the value |
| `Dispatch.AppendMeaning` | types/append.go:13-56 | The whole dispatcher keeps the buffer and appends text meaning the underlying value or the failure. This holds unless a self-appending value is reached or a null-like value is appended outside mode 1 |
| `Dispatch.NullDiscards` | types/append.go:15-16 | A nil value or nil byte slice outside mode 1, reached directly or through valuers, yields the empty slice and drops the buffer |

## Left out

- Floating point is not modelled: the `float32` and `float64` cases and
  `appendFloat` (types/append.go:39-42, 80-82). Their text comes from
  `strconv`'s shortest-representation formatting.
- `time.Time` values (types/append.go:45-46) are not modelled. `AppendTime`
  is not part of this model.
- The reflection fallback `appendValue` (types/append.go:53-54) is not
  modelled. Its source is not part of this model.
- `internal/parser` is replaced by the `Cursor` datatype, under the
  assumption stated above.
- Integer widths are not separated. `Int` carries an `int64` and `Uint` a
  `uint64`, because every narrower Go integer is widened losslessly before
  it is formatted.
- Go map iteration order is not modelled as randomness. A map is the sequence of
  its entries in one iteration order, with distinct keys. Every property
  holds for every such order, and `MapOrderIrrelevant` relates two orders.
- Dispatch.AppendMeaning: says nothing about a self-appending value. Its
  `AppendValue` is a parameter function whose output is unconstrained.
  `Dispatch.AppendAppender` states what the dispatcher does with that output.
- A Go value implementing both `ValueAppender` and `driver.Valuer` takes the
  appender case, because that case is tested first (types/append.go:49-52).
  The model's `Appender` and `Valuer` are separate variants, so no value is
  both.
- Cyclic or unbounded valuer chains are not representable: `Value` is an
  inductive datatype, so every chain of `Valuer`s ends. In Go, a `Value()`
  that returns a valuer again, itself for instance, makes `Append` and
  `appendDriverValuer` (types/append.go:176-180) call each other until the
  stack overflows. `Dispatch.Append` is total only because such chains
  cannot be written down.
- Go's nil slice and an empty non-nil slice are the same value `[]` in the
  model. So when the buffer is empty, the nil that `AppendNull` returns
  outside mode 1 (types/append.go:69) cannot be told apart from keeping
  the buffer, and `Dispatch.NullDiscards` then says nothing observable.
- Slice aliasing and capacity of Go's `append` are not modelled: values are
  immutable sequences.
- `Strings.PlainMode` states that raw mode copies the input minus its NUL bytes. There is no reader for raw
  text, because raw mode does not escape anything and cannot be inverted.
