/** The layout a dotted identifier path should have in quoting mode 1,
    defined segment by segment and independently of how `appendField` walks
    the path: split the path at every `.`, render each segment on its own,
    and join the renderings with `.`. */
module PathLayout {
  import opened Bytes

  /** The bytes of `s` before its first `.`, or all of `s`. */
  function FirstSegment(s: seq<byte>): (h: seq<byte>)
    ensures |h| <= |s| && h == s[..|h|]
    ensures DOT !in h
    ensures |h| < |s| ==> s[|h|] == DOT
    decreases |s|
  {
    if s == [] || s[0] == DOT then [] else [s[0]] + FirstSegment(s[1..])
  }

  /** The segments of `s` between its dots; a path with `k` dots has
      `k + 1` segments, some possibly empty. */
  function Split(s: seq<byte>): (segs: seq<seq<byte>>)
    ensures |segs| >= 1
    decreases |s|
  {
    var h := FirstSegment(s);
    if |h| == |s| then [s] else [h] + Split(s[|h| + 1..])
  }

  /** The parts joined with a `.` between each two. */
  function JoinDots(parts: seq<seq<byte>>): seq<byte>
    requires |parts| >= 1
  {
    if |parts| == 1 then parts[0] else parts[0] + [DOT] + JoinDots(parts[1..])
  }

  /** A `"` doubled, as SQL writes it inside a quoted identifier. */
  function Doubled(s: seq<byte>): seq<byte> {
    if s == [] then []
    else (if s[0] == DQUOTE then [DQUOTE, DQUOTE] else [s[0]]) + Doubled(s[1..])
  }

  /** `s` as one quoted identifier. */
  function QuotedIdent(s: seq<byte>): seq<byte> {
    [DQUOTE] + Doubled(s) + [DQUOTE]
  }

  /** A segment's leading wildcards stay bare; the rest of it, when there
      is any, becomes one quoted identifier. */
  function BareStarsThenQuoted(seg: seq<byte>): seq<byte>
    decreases |seg|
  {
    if seg == [] then []
    else if seg[0] == STAR then [STAR] + BareStarsThenQuoted(seg[1..])
    else QuotedIdent(seg)
  }

  /** The rendering of one segment. The first segment, and any segment
      that starts with `*`, keeps its leading wildcards bare. Any other
      segment after a `.` is quoted whole, even when it is empty. */
  function SegmentText(seg: seq<byte>, afterDot: bool): seq<byte> {
    if afterDot && !(seg != [] && seg[0] == STAR) then QuotedIdent(seg)
    else BareStarsThenQuoted(seg)
  }

  function SegmentTexts(segs: seq<seq<byte>>, afterDot: bool): (r: seq<seq<byte>>)
    ensures |r| == |segs|
    decreases |segs|
  {
    if segs == [] then [] else [SegmentText(segs[0], afterDot)] + SegmentTexts(segs[1..], true)
  }

  /** The mode-1 text of a whole path. */
  function Layout(path: seq<byte>): seq<byte> {
    JoinDots(SegmentTexts(Split(path), false))
  }

  /** Splitting and joining again gives back the path. */
  lemma {:induction false} JoinSplit(s: seq<byte>)
    ensures JoinDots(Split(s)) == s
    decreases |s|
  {
    var h := FirstSegment(s);
    if |h| < |s| {
      var s' := s[|h| + 1..];
      JoinSplit(s');
      assert s == h + [DOT] + s';
    }
  }

  /** No segment contains a `.`. */
  lemma {:induction false} SplitSegmentsDotFree(s: seq<byte>)
    ensures forall i :: 0 <= i < |Split(s)| ==> DOT !in Split(s)[i]
    decreases |s|
  {
    var h := FirstSegment(s);
    if |h| < |s| {
      SplitSegmentsDotFree(s[|h| + 1..]);
    }
  }

  /** The layout of `s` rendered segment by segment from its first
      segment on: that segment's text, then what follows it. */
  function LayoutFrom(s: seq<byte>, afterDot: bool): seq<byte>
    decreases |s|, 1
  {
    SegmentText(FirstSegment(s), afterDot) + AfterFirst(s)
  }

  /** What follows the first segment of `s` in its layout: nothing, or
      the `.` and the layout of the rest, every segment of which follows
      a dot. */
  function AfterFirst(s: seq<byte>): seq<byte>
    decreases |s|, 0
  {
    var h := FirstSegment(s);
    if |h| == |s| then [] else [DOT] + LayoutFrom(s[|h| + 1..], true)
  }

  /** The segment-by-segment rendering agrees with splitting at every `.`,
      rendering each segment, and joining with `.`. */
  lemma {:induction false} SplitLayout(s: seq<byte>, afterDot: bool)
    ensures JoinDots(SegmentTexts(Split(s), afterDot)) == LayoutFrom(s, afterDot)
    decreases |s|
  {
    var h := FirstSegment(s);
    if |h| == |s| {
      assert h == s;
    } else {
      var s' := s[|h| + 1..];
      var rest := Split(s');
      calc {
        JoinDots(SegmentTexts(Split(s), afterDot));
      == { assert Split(s) == [h] + rest; }
        JoinDots(SegmentTexts([h] + rest, afterDot));
      == { SegmentTextsCons(h, rest, afterDot); }
        JoinDots([SegmentText(h, afterDot)] + SegmentTexts(rest, true));
      == { JoinDotsCons(SegmentText(h, afterDot), SegmentTexts(rest, true)); }
        SegmentText(h, afterDot) + ([DOT] + JoinDots(SegmentTexts(rest, true)));
      == { SplitLayout(s', true); }
        SegmentText(h, afterDot) + ([DOT] + LayoutFrom(s', true));
      }
    }
  }

  lemma SegmentTextsCons(seg: seq<byte>, segs: seq<seq<byte>>, afterDot: bool)
    ensures SegmentTexts([seg] + segs, afterDot) == [SegmentText(seg, afterDot)] + SegmentTexts(segs, true)
  {
    assert ([seg] + segs)[1..] == segs;
  }

  lemma JoinDotsCons(part: seq<byte>, parts: seq<seq<byte>>)
    requires |parts| >= 1
    ensures JoinDots([part] + parts) == part + ([DOT] + JoinDots(parts))
  {
    assert ([part] + parts)[1..] == parts;
  }
}
