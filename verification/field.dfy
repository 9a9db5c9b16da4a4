/** The identifier quoter, `appendField` with its entry points `AppendField`
    and `AppendFieldBytes` (types/append.go:183-232). It walks a dotted path
    with one bit of state, `quoted`, telling whether a `"` is open. Only mode
    1 ever opens one; in every other mode the path is copied unchanged. */
module Field {
  import opened Bytes
  import opened Wrappers
  import opened Cursor
  import opened PathLayout

  /** The bytes the loop appends from cursor `p` on, starting in state
      `quoted`. A `*` outside quotes is copied as it is; inside quotes it is
      an ordinary byte. A `.` closes an open quote, is copied, and is
      followed either by a `*` read with `Skip` or, in mode 1, by a new
      opening quote. Any other byte opens a quote if none is open (mode 1)
      and is copied, a `"` doubled in mode 1. At the end an open quote is
      closed. */
  function FieldLoop(p: Parser, quoted: bool, quote: int): seq<byte>
    requires p.pos <= |p.buf|
    decreases |p.buf| - p.pos
  {
    if !p.Valid() then
      if quote == 1 && quoted then [DQUOTE] else []
    else
      var (c, p1) := p.Read();
      if c == STAR && !quoted then
        [STAR] + FieldLoop(p1, quoted, quote)
      else if c == DOT then
        var close := quoted && quote == 1;
        var q1 := if close then false else quoted;
        var head := (if close then [DQUOTE] else []) + [DOT];
        var (skipped, p2) := p1.Skip(STAR);
        if skipped then head + [STAR] + FieldLoop(p2, q1, quote)
        else if quote == 1 then head + [DQUOTE] + FieldLoop(p2, true, quote)
        else head + FieldLoop(p2, q1, quote)
      else
        var open := !quoted && quote == 1;
        var q1 := if open then true else quoted;
        var emitted := if quote == 1 && c == DQUOTE then [DQUOTE, DQUOTE] else [c];
        (if open then [DQUOTE] else []) + emitted + FieldLoop(p1, q1, quote)
  }

  function PrependByte(c: byte, o: Option<seq<byte>>): Option<seq<byte>> {
    match o
    case Some(v) => Some([c] + v)
    case None => None
  }

  /** Reads quoted identifier text back as SQL does: a `"` outside quotes
      opens a quoted part, `""` inside one stands for a `"`, a lone `"`
      closes it, and a quoted part left open at the end is an error. */
  function Unquote(t: seq<byte>, inQuote: bool): Option<seq<byte>>
    decreases |t|
  {
    if t == [] then
      if inQuote then None else Some([])
    else if !inQuote then
      if t[0] == DQUOTE then Unquote(t[1..], true) else PrependByte(t[0], Unquote(t[1..], false))
    else if t[0] == DQUOTE then
      if |t| > 1 && t[1] == DQUOTE then PrependByte(DQUOTE, Unquote(t[2..], true))
      else Unquote(t[1..], false)
    else PrependByte(t[0], Unquote(t[1..], true))
  }

  /** Appends the identifier path `field`. */
  function AppendField(b: seq<byte>, field: seq<byte>, quote: int): (r: seq<byte>)
    ensures quote != 1 ==> r == b + field
    ensures quote == 1 ==> |b| <= |r| && r[..|b|] == b && Unquote(r[|b|..], false) == Some(field)
    ensures quote == 1 ==> r == b + Layout(field)
  {
    var t := FieldLoop(New(field), false, quote);
    if quote == 1 then
      FieldRoundTrip(New(field), false);
      FieldLayout(field);
      assert (b + t)[|b|..] == t;
      b + t
    else
      FieldPlain(New(field), quote);
      b + t
  }

  /** Outside mode 1 no quote is ever opened and every byte is copied. */
  lemma {:induction false} FieldPlain(p: Parser, quote: int)
    requires p.pos <= |p.buf|
    requires quote != 1
    ensures FieldLoop(p, false, quote) == p.Rest()
    decreases |p.buf| - p.pos
  {
    if p.Valid() {
      var p1 := Parser(p.buf, p.pos + 1);
      PlainStep(p, quote);
      FieldPlain(p1, quote);
      assert p.Rest() == [p.buf[p.pos]] + p1.Rest();
    }
  }

  /** Outside mode 1 each step copies one byte: a `.` followed by a `*` is
      two steps in one, and the `*` alone would be copied the same way. */
  lemma PlainStep(p: Parser, quote: int)
    requires p.pos < |p.buf|
    requires quote != 1
    ensures FieldLoop(p, false, quote) == [p.buf[p.pos]] + FieldLoop(Parser(p.buf, p.pos + 1), false, quote)
  {
    var p1 := Parser(p.buf, p.pos + 1);
    if p.buf[p.pos] == DOT && p1.Valid() && p1.buf[p1.pos] == STAR {
      var p2 := Parser(p.buf, p.pos + 2);
      assert FieldLoop(p, false, quote) == [DOT] + [STAR] + FieldLoop(p2, false, quote);
      assert FieldLoop(p1, false, quote) == [STAR] + FieldLoop(p2, false, quote);
    }
  }

  /** Mode 1 round trip: reading the appended text back with `Unquote`
      gives the path, so every opening quote is closed, the delimiters
      alternate, and a `"` inside a part is doubled. */
  lemma {:induction false} FieldRoundTrip(p: Parser, quoted: bool)
    requires p.pos <= |p.buf|
    ensures Unquote(FieldLoop(p, quoted, 1), quoted) == Some(p.Rest())
    decreases |p.buf| - p.pos, 1
  {
    if !p.Valid() {
      assert p.Rest() == [];
      if quoted {
        UnquoteClose([]);
      }
    } else {
      var (c, p1) := p.Read();
      assert p.Rest() == [c] + p1.Rest();
      if c == STAR && !quoted {
        FieldRoundTrip(p1, false);
        UnquoteByte(STAR, FieldLoop(p1, false, 1), false);
      } else if c == DOT {
        DotStep(p1, quoted);
      } else {
        FieldRoundTrip(p1, true);
        var u := FieldLoop(p1, true, 1);
        var e: seq<byte> := if c == DQUOTE then [DQUOTE, DQUOTE] else [c];
        assert FieldLoop(p, quoted, 1) == (if quoted then [] else [DQUOTE]) + e + u;
        if c == DQUOTE {
          UnquoteEscaped(u);
        } else {
          UnquoteByte(c, u, true);
        }
        if !quoted {
          UnquoteOpen(e + u);
        }
      }
    }
  }

  /** The round trip for a `.` read from the path, `p1` being the cursor
      after it. */
  lemma {:induction false} DotStep(p1: Parser, quoted: bool)
    requires 1 <= p1.pos <= |p1.buf|
    requires p1.buf[p1.pos - 1] == DOT
    ensures Unquote(FieldLoop(Parser(p1.buf, p1.pos - 1), quoted, 1), quoted) == Some([DOT] + p1.Rest())
    decreases |p1.buf| - p1.pos + 1, 0
  {
    var tail := DotLayout(p1, quoted);
    DotTail(p1);
    UnquoteByte(DOT, tail, false);
    if quoted {
      UnquoteClose([DOT] + tail);
    }
  }

  /** What follows a `.`, the `*` taken by `Skip` or an opening quote and
      the rest of the loop, unquotes back to the rest of the path. */
  lemma {:induction false} DotTail(p1: Parser)
    requires p1.pos <= |p1.buf|
    ensures Unquote(if p1.Valid() && p1.buf[p1.pos] == STAR
                    then [STAR] + FieldLoop(Parser(p1.buf, p1.pos + 1), false, 1)
                    else [DQUOTE] + FieldLoop(p1, true, 1), false)
         == Some(p1.Rest())
    decreases |p1.buf| - p1.pos, 2
  {
    if p1.Valid() && p1.buf[p1.pos] == STAR {
      var p2 := Parser(p1.buf, p1.pos + 1);
      FieldRoundTrip(p2, false);
      UnquoteByte(STAR, FieldLoop(p2, false, 1), false);
      assert p1.Rest() == [STAR] + p2.Rest();
    } else {
      FieldRoundTrip(p1, true);
      UnquoteOpen(FieldLoop(p1, true, 1));
    }
  }

  /** How the loop lays out a `.` in mode 1: an open quote is closed, the
      `.` is copied, and then comes either the `*` that `Skip` consumed or
      an opening quote. */
  lemma DotLayout(p1: Parser, quoted: bool) returns (tail: seq<byte>)
    requires 1 <= p1.pos <= |p1.buf|
    requires p1.buf[p1.pos - 1] == DOT
    ensures p1.Valid() && p1.buf[p1.pos] == STAR ==>
      tail == [STAR] + FieldLoop(Parser(p1.buf, p1.pos + 1), false, 1)
    ensures !(p1.Valid() && p1.buf[p1.pos] == STAR) ==> tail == [DQUOTE] + FieldLoop(p1, true, 1)
    ensures FieldLoop(Parser(p1.buf, p1.pos - 1), quoted, 1) ==
      (if quoted then [DQUOTE] + ([DOT] + tail) else [DOT] + tail)
  {
    var p := Parser(p1.buf, p1.pos - 1);
    assert p.Read() == (DOT, p1);
    if p1.Valid() && p1.buf[p1.pos] == STAR {
      tail := [STAR] + FieldLoop(Parser(p1.buf, p1.pos + 1), false, 1);
    } else {
      tail := [DQUOTE] + FieldLoop(p1, true, 1);
    }
  }

  lemma UnquoteOpen(u: seq<byte>)
    ensures Unquote([DQUOTE] + u, false) == Unquote(u, true)
  {
    assert ([DQUOTE] + u)[1..] == u;
  }

  lemma UnquoteClose(u: seq<byte>)
    requires u == [] || u[0] != DQUOTE
    ensures Unquote([DQUOTE] + u, true) == Unquote(u, false)
  {
    assert ([DQUOTE] + u)[1..] == u;
  }

  lemma UnquoteEscaped(u: seq<byte>)
    ensures Unquote([DQUOTE, DQUOTE] + u, true) == PrependByte(DQUOTE, Unquote(u, true))
  {
    assert ([DQUOTE, DQUOTE] + u)[2..] == u;
  }

  lemma UnquoteByte(c: byte, u: seq<byte>, inQuote: bool)
    requires c != DQUOTE
    ensures Unquote([c] + u, inQuote) == PrependByte(c, Unquote(u, inQuote))
  {
    assert ([c] + u)[1..] == u;
  }

  /** Mode 1 writes exactly the segment-by-segment layout of the path:
      every `.` stands outside quotes between two segment renderings, a
      segment's leading `*` bytes stay bare, and the rest of each segment
      is one quoted identifier. */
  lemma FieldLayout(field: seq<byte>)
    ensures FieldLoop(New(field), false, 1) == Layout(field)
  {
    UnquotedFrom(New(field));
    SplitLayout(field, false);
  }

  /** Outside quotes, the loop writes the first segment of what remains
      with its leading wildcards bare and the rest quoted, then the layout
      of the following segments. */
  lemma {:induction false} UnquotedFrom(p: Parser)
    requires p.pos <= |p.buf|
    ensures FieldLoop(p, false, 1) == BareStarsThenQuoted(FirstSegment(p.Rest())) + AfterFirst(p.Rest())
    decreases |p.buf| - p.pos, 5
  {
    if !p.Valid() {
      assert p.Rest() == [];
    } else if p.buf[p.pos] == DOT {
      UnquotedDot(p);
    } else if p.buf[p.pos] == STAR {
      UnquotedStar(p);
    } else {
      UnquotedOther(p);
    }
  }

  lemma {:induction false} UnquotedDot(p: Parser)
    requires p.pos < |p.buf| && p.buf[p.pos] == DOT
    ensures FieldLoop(p, false, 1) == BareStarsThenQuoted(FirstSegment(p.Rest())) + AfterFirst(p.Rest())
    decreases |p.buf| - p.pos, 4
  {
    var p1 := Parser(p.buf, p.pos + 1);
    var s1 := p1.Rest();
    assert p.Rest() == [DOT] + s1;
    var tail := DotLayout(p1, false);
    calc {
      FieldLoop(p, false, 1);
      [DOT] + tail;
    == { AfterDotFrom(p1); }
      [DOT] + LayoutFrom(s1, true);
    == { DotSegment(s1); }
      BareStarsThenQuoted(FirstSegment([DOT] + s1)) + AfterFirst([DOT] + s1);
    }
  }

  lemma {:induction false} UnquotedStar(p: Parser)
    requires p.pos < |p.buf| && p.buf[p.pos] == STAR
    ensures FieldLoop(p, false, 1) == BareStarsThenQuoted(FirstSegment(p.Rest())) + AfterFirst(p.Rest())
    decreases |p.buf| - p.pos, 4
  {
    var p1 := Parser(p.buf, p.pos + 1);
    var s1 := p1.Rest();
    calc {
      FieldLoop(p, false, 1);
    == { StarStep(p); }
      [STAR] + FieldLoop(p1, false, 1);
    == { UnquotedFrom(p1); }
      [STAR] + (BareStarsThenQuoted(FirstSegment(s1)) + AfterFirst(s1));
    == { StarCons(s1); }
      BareStarsThenQuoted(FirstSegment([STAR] + s1)) + AfterFirst([STAR] + s1);
    == { assert p.Rest() == [STAR] + s1; }
      BareStarsThenQuoted(FirstSegment(p.Rest())) + AfterFirst(p.Rest());
    }
  }

  lemma {:induction false} UnquotedOther(p: Parser)
    requires p.pos < |p.buf| && p.buf[p.pos] != DOT && p.buf[p.pos] != STAR
    ensures FieldLoop(p, false, 1) == BareStarsThenQuoted(FirstSegment(p.Rest())) + AfterFirst(p.Rest())
    decreases |p.buf| - p.pos, 4
  {
    var c := p.buf[p.pos];
    var p1 := Parser(p.buf, p.pos + 1);
    var s1 := p1.Rest();
    calc {
      FieldLoop(p, false, 1);
    == { LoopStep(p, false); }
      [DQUOTE] + Doubled([c]) + FieldLoop(p1, true, 1);
    == { QuotedFrom(p1); }
      [DQUOTE] + Doubled([c]) + (Doubled(FirstSegment(s1)) + [DQUOTE] + AfterFirst(s1));
    == { OpenCons(c, s1); }
      BareStarsThenQuoted(FirstSegment([c] + s1)) + AfterFirst([c] + s1);
    == { assert p.Rest() == [c] + s1; }
      BareStarsThenQuoted(FirstSegment(p.Rest())) + AfterFirst(p.Rest());
    }
  }

  /** Inside a quote, the loop writes the rest of the current segment with
      `"` doubled, closes the quote, and writes the layout of the
      following segments. */
  lemma {:induction false} QuotedFrom(p: Parser)
    requires p.pos <= |p.buf|
    ensures FieldLoop(p, true, 1) == Doubled(FirstSegment(p.Rest())) + [DQUOTE] + AfterFirst(p.Rest())
    decreases |p.buf| - p.pos, 1
  {
    if !p.Valid() {
      assert p.Rest() == [];
    } else if p.buf[p.pos] == DOT {
      QuotedDot(p);
    } else {
      QuotedOther(p);
    }
  }

  lemma {:induction false} QuotedDot(p: Parser)
    requires p.pos < |p.buf| && p.buf[p.pos] == DOT
    ensures FieldLoop(p, true, 1) == Doubled(FirstSegment(p.Rest())) + [DQUOTE] + AfterFirst(p.Rest())
    decreases |p.buf| - p.pos, 0
  {
    var p1 := Parser(p.buf, p.pos + 1);
    var s1 := p1.Rest();
    assert p.Rest() == [DOT] + s1;
    var tail := DotLayout(p1, true);
    calc {
      FieldLoop(p, true, 1);
      [DQUOTE] + ([DOT] + tail);
    == { AfterDotFrom(p1); }
      [DQUOTE] + ([DOT] + LayoutFrom(s1, true));
    == { DotSegment(s1); }
      Doubled(FirstSegment([DOT] + s1)) + [DQUOTE] + AfterFirst([DOT] + s1);
    }
  }

  lemma {:induction false} QuotedOther(p: Parser)
    requires p.pos < |p.buf| && p.buf[p.pos] != DOT
    ensures FieldLoop(p, true, 1) == Doubled(FirstSegment(p.Rest())) + [DQUOTE] + AfterFirst(p.Rest())
    decreases |p.buf| - p.pos, 0
  {
    var c := p.buf[p.pos];
    var p1 := Parser(p.buf, p.pos + 1);
    var s1 := p1.Rest();
    calc {
      FieldLoop(p, true, 1);
    == { LoopStep(p, true); }
      Doubled([c]) + FieldLoop(p1, true, 1);
    == { QuotedFrom(p1); }
      Doubled([c]) + (Doubled(FirstSegment(s1)) + [DQUOTE] + AfterFirst(s1));
    == { QuotedCons(c, s1); }
      Doubled(FirstSegment([c] + s1)) + [DQUOTE] + AfterFirst([c] + s1);
    == { assert p.Rest() == [c] + s1; }
      Doubled(FirstSegment(p.Rest())) + [DQUOTE] + AfterFirst(p.Rest());
    }
  }

  /** Inside a quote, a byte other than `.` joins the current segment. */
  lemma QuotedCons(c: byte, s1: seq<byte>)
    requires c != DOT
    ensures Doubled([c]) + (Doubled(FirstSegment(s1)) + [DQUOTE] + AfterFirst(s1))
         == Doubled(FirstSegment([c] + s1)) + [DQUOTE] + AfterFirst([c] + s1)
  {
    var h1 := FirstSegment(s1);
    var x, y := Doubled([c]), Doubled(h1);
    DoubledCons(c, h1);
    SegmentCons(c, s1);
    Regroup(x, y + [DQUOTE], AfterFirst(s1));
    Regroup(x, y, [DQUOTE]);
  }

  /** After a `.` (cursor `p1` just past it) the loop writes a `*` taken by
      `Skip` and carries on outside quotes, or opens a quote; either way
      this is the layout of the rest with its first segment following a
      dot. */
  lemma {:induction false} AfterDotFrom(p1: Parser)
    requires p1.pos <= |p1.buf|
    ensures (if p1.Valid() && p1.buf[p1.pos] == STAR
             then [STAR] + FieldLoop(Parser(p1.buf, p1.pos + 1), false, 1)
             else [DQUOTE] + FieldLoop(p1, true, 1))
         == LayoutFrom(p1.Rest(), true)
    decreases |p1.buf| - p1.pos, 3
  {
    if p1.Valid() && p1.buf[p1.pos] == STAR {
      AfterDotStar(p1);
    } else {
      AfterDotOther(p1);
    }
  }

  lemma {:induction false} AfterDotStar(p1: Parser)
    requires p1.pos < |p1.buf| && p1.buf[p1.pos] == STAR
    ensures [STAR] + FieldLoop(Parser(p1.buf, p1.pos + 1), false, 1) == LayoutFrom(p1.Rest(), true)
    decreases |p1.buf| - p1.pos, 2
  {
    var p2 := Parser(p1.buf, p1.pos + 1);
    var s2 := p2.Rest();
    calc {
      [STAR] + FieldLoop(p2, false, 1);
    == { UnquotedFrom(p2); }
      [STAR] + (BareStarsThenQuoted(FirstSegment(s2)) + AfterFirst(s2));
    == { StarCons(s2); StarAfterDot(s2); }
      LayoutFrom([STAR] + s2, true);
    == { assert p1.Rest() == [STAR] + s2; }
      LayoutFrom(p1.Rest(), true);
    }
  }

  lemma {:induction false} AfterDotOther(p1: Parser)
    requires p1.pos <= |p1.buf|
    requires !(p1.Valid() && p1.buf[p1.pos] == STAR)
    ensures [DQUOTE] + FieldLoop(p1, true, 1) == LayoutFrom(p1.Rest(), true)
    decreases |p1.buf| - p1.pos, 2
  {
    var s := p1.Rest();
    var h := FirstSegment(s);
    assert !(h != [] && h[0] == STAR);
    calc {
      [DQUOTE] + FieldLoop(p1, true, 1);
    == { QuotedFrom(p1); }
      [DQUOTE] + (Doubled(h) + [DQUOTE] + AfterFirst(s));
      QuotedIdent(h) + AfterFirst(s);
      SegmentText(h, true) + AfterFirst(s);
    ==
      LayoutFrom(s, true);
    }
  }

  /** A `*` in front of a path joins its first segment's bare wildcards. */
  lemma StarCons(s1: seq<byte>)
    ensures [STAR] + (BareStarsThenQuoted(FirstSegment(s1)) + AfterFirst(s1))
         == BareStarsThenQuoted(FirstSegment([STAR] + s1)) + AfterFirst([STAR] + s1)
  {
    var h1 := FirstSegment(s1);
    BareStarsCons(h1);
    SegmentCons(STAR, s1);
    Regroup([STAR], BareStarsThenQuoted(h1), AfterFirst(s1));
  }

  /** After a `.`, a segment starting with `*` is rendered as a first
      segment would be. */
  lemma StarAfterDot(s1: seq<byte>)
    ensures BareStarsThenQuoted(FirstSegment([STAR] + s1)) + AfterFirst([STAR] + s1)
         == LayoutFrom([STAR] + s1, true)
  {
    SegmentCons(STAR, s1);
  }

  /** Outside quotes, a byte other than `.` and `*` opens the quoted part
      of the current segment. */
  lemma OpenCons(c: byte, s1: seq<byte>)
    requires c != DOT && c != STAR
    ensures [DQUOTE] + Doubled([c]) + (Doubled(FirstSegment(s1)) + [DQUOTE] + AfterFirst(s1))
         == BareStarsThenQuoted(FirstSegment([c] + s1)) + AfterFirst([c] + s1)
  {
    var h1 := FirstSegment(s1);
    var x, y := Doubled([c]), Doubled(h1);
    DoubledCons(c, h1);
    BareNoStar([c] + h1);
    SegmentCons(c, s1);
    Regroup([DQUOTE] + x, y + [DQUOTE], AfterFirst(s1));
    Regroup([DQUOTE] + x, y, [DQUOTE]);
    Regroup([DQUOTE], x, y);
  }

  /** Concatenation regrouped, stated once so that the proofs above need
      no search for it. */
  lemma Regroup(x: seq<byte>, y: seq<byte>, z: seq<byte>)
    ensures x + (y + z) == (x + y) + z
  {
  }

  /** A `*` outside quotes is copied bare. */
  lemma StarStep(p: Parser)
    requires p.pos < |p.buf| && p.buf[p.pos] == STAR
    ensures FieldLoop(p, false, 1) == [STAR] + FieldLoop(Parser(p.buf, p.pos + 1), false, 1)
  {
  }

  lemma DoubledCons(c: byte, s: seq<byte>)
    ensures Doubled([c] + s) == Doubled([c]) + Doubled(s)
  {
    assert ([c] + s)[1..] == s;
    assert [c][1..] == [];
  }

  /** One step of the loop on a byte other than `.` in mode 1. */
  lemma LoopStep(p: Parser, quoted: bool)
    requires p.pos < |p.buf| && p.buf[p.pos] != DOT
    requires quoted || p.buf[p.pos] != STAR
    ensures FieldLoop(p, quoted, 1)
         == (if quoted then [] else [DQUOTE]) + Doubled([p.buf[p.pos]]) + FieldLoop(Parser(p.buf, p.pos + 1), true, 1)
  {
  }

  lemma SegmentCons(c: byte, s1: seq<byte>)
    requires c != DOT
    ensures FirstSegment([c] + s1) == [c] + FirstSegment(s1)
    ensures AfterFirst([c] + s1) == AfterFirst(s1)
  {
    FirstSegmentCons(c, s1);
    AfterFirstCons(c, s1);
  }

  lemma FirstSegmentCons(c: byte, s1: seq<byte>)
    requires c != DOT
    ensures FirstSegment([c] + s1) == [c] + FirstSegment(s1)
  {
    assert ([c] + s1)[1..] == s1;
  }

  lemma AfterFirstCons(c: byte, s1: seq<byte>)
    requires c != DOT
    ensures AfterFirst([c] + s1) == AfterFirst(s1)
  {
    var s := [c] + s1;
    var h1 := FirstSegment(s1);
    FirstSegmentCons(c, s1);
    assert |FirstSegment(s)| == |h1| + 1;
    if |h1| < |s1| {
      assert s[|h1| + 2..] == s1[|h1| + 1..];
    }
  }

  lemma BareStarsCons(seg: seq<byte>)
    ensures BareStarsThenQuoted([STAR] + seg) == [STAR] + BareStarsThenQuoted(seg)
  {
    assert ([STAR] + seg)[1..] == seg;
  }

  lemma BareNoStar(seg: seq<byte>)
    requires seg != [] && seg[0] != STAR
    ensures BareStarsThenQuoted(seg) == QuotedIdent(seg)
  {
  }

  /** A path starting with `.` has an empty first segment, followed by the
      `.` and the layout of the rest. */
  lemma DotSegment(s1: seq<byte>)
    ensures FirstSegment([DOT] + s1) == []
    ensures AfterFirst([DOT] + s1) == [DOT] + LayoutFrom(s1, true)
  {
    assert ([DOT] + s1)[1..] == s1;
  }

  const LowerA: byte := 'a' as int as byte
  const LowerB: byte := 'b' as int as byte

  /** `a.b` becomes `"a"."b"`. */
  lemma ExampleDotted()
    ensures AppendField([], [LowerA, DOT, LowerB], 1)
         == [DQUOTE, LowerA, DQUOTE, DOT, DQUOTE, LowerB, DQUOTE]
  {
    var s := [LowerA, DOT, LowerB];
    assert FieldLoop(Parser(s, 3), true, 1) == [DQUOTE];
    assert FieldLoop(Parser(s, 2), true, 1) == [LowerB, DQUOTE];
    assert FieldLoop(Parser(s, 1), true, 1) == [DQUOTE, DOT, DQUOTE, LowerB, DQUOTE];
    assert FieldLoop(Parser(s, 0), false, 1) == [DQUOTE, LowerA, DQUOTE, DOT, DQUOTE, LowerB, DQUOTE];
  }

  /** `a.*` becomes `"a".*`. */
  lemma ExampleStar()
    ensures AppendField([], [LowerA, DOT, STAR], 1) == [DQUOTE, LowerA, DQUOTE, DOT, STAR]
  {
    var s := [LowerA, DOT, STAR];
    assert FieldLoop(Parser(s, 3), false, 1) == [];
    assert FieldLoop(Parser(s, 1), true, 1) == [DQUOTE, DOT, STAR];
    assert FieldLoop(Parser(s, 0), false, 1) == [DQUOTE, LowerA, DQUOTE, DOT, STAR];
  }

  /** A lone `*` is left unquoted. */
  lemma ExampleLoneStar()
    ensures AppendField([], [STAR], 1) == [STAR]
  {
    assert FieldLoop(Parser([STAR], 1), false, 1) == [];
    assert FieldLoop(Parser([STAR], 0), false, 1) == [STAR];
  }

  /** `a"b` becomes `"a""b"`. */
  lemma ExampleEmbeddedQuote()
    ensures AppendField([], [LowerA, DQUOTE, LowerB], 1)
         == [DQUOTE, LowerA, DQUOTE, DQUOTE, LowerB, DQUOTE]
  {
    var s := [LowerA, DQUOTE, LowerB];
    assert FieldLoop(Parser(s, 3), true, 1) == [DQUOTE];
    assert FieldLoop(Parser(s, 2), true, 1) == [LowerB, DQUOTE];
    assert FieldLoop(Parser(s, 1), true, 1) == [DQUOTE, DQUOTE, LowerB, DQUOTE];
    assert FieldLoop(Parser(s, 0), false, 1) == [DQUOTE, LowerA, DQUOTE, DQUOTE, LowerB, DQUOTE];
  }
}
