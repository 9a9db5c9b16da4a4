/** The map encoder, `AppendStringStringMap` (types/append.go:149-173). A Go
    map is iterated in an unspecified order, so the map is given here as the
    sequence of its entries in the order one iteration visits them; keys are
    distinct, and every property is proved for every such order. */
module StringMap {
  import opened Bytes
  import opened Wrappers
  import opened Leaf
  import opened Strings

  datatype Pair = Pair(key: seq<byte>, value: seq<byte>)

  const Arrow: seq<byte> := ['=' as int as byte, '>' as int as byte]

  /** A Go map holds each key once. */
  predicate DistinctKeys(es: seq<Pair>) {
    forall i, j :: 0 <= i < j < |es| ==> es[i].key != es[j].key
  }

  /** The loop, visiting the entries in the order given: each entry as `"key"=>"value"` followed by a comma. */
  function EntriesLoop(b: seq<byte>, es: seq<Pair>): seq<byte>
    decreases |es|
  {
    if es == [] then b else EntriesLoop(AppendEntry(b, es[0]), es[1..])
  }

  /** One turn of the loop: key, arrow, value, comma. */
  function AppendEntry(b: seq<byte>, e: Pair): seq<byte> {
    var b1 := AppendString(b, e.key, 2);
    var b2 := AppendString(b1 + Arrow, e.value, 2);
    b2 + [COMMA]
  }

  /** One entry, both sides in the double-quoted form. */
  function Rendered(e: Pair): seq<byte> {
    AppendString([], e.key, 2) + Arrow + AppendString([], e.value, 2)
  }

  /** Reference layout: the entries joined by commas, none after the last. */
  function Join(es: seq<Pair>): seq<byte>
    decreases |es|
  {
    if |es| == 0 then []
    else if |es| == 1 then Rendered(es[0])
    else Rendered(es[0]) + [COMMA] + Join(es[1..])
  }

  /** The map as the text denotes it: NUL bytes are dropped from keys and
      values, so two keys may coincide afterwards. */
  function Clean(es: seq<Pair>): (r: seq<Pair>)
    ensures |r| == |es|
    decreases |es|
  {
    if es == [] then []
    else [Pair(RemoveNul(es[0].key), RemoveNul(es[0].value))] + Clean(es[1..])
  }

  /** The text of a present map: the entries joined by commas inside the
      optional single quotes. */
  function Wrapped(es: seq<Pair>, quote: int): seq<byte> {
    if quote == 1 then [SQUOTE] + Join(es) + [SQUOTE] else Join(es)
  }

  /** `m` is None for a nil map. */
  function AppendStringStringMap(b: seq<byte>, m: Option<seq<Pair>>, quote: int): (r: seq<byte>)
    requires m.Some? ==> DistinctKeys(m.value)
    ensures m.None? ==> r == AppendNull(b, quote)
    ensures m.Some? ==> r == b + Wrapped(m.value, quote)
    ensures m.Some? && m.value == [] ==> r == b + (if quote == 1 then [SQUOTE, SQUOTE] else [])
  {
    match m
    case None => AppendNull(b, quote)
    case Some(es) =>
      var b1 := if quote == 1 then b + [SQUOTE] else b;
      var b3 := LoopThenStrip(b1, es);
      if quote == 1 then b3 + [SQUOTE] else b3
  }

  /** The loop, then the removal of the last byte when there was at least
      one entry. */
  function LoopThenStrip(b: seq<byte>, es: seq<Pair>): (r: seq<byte>)
    ensures r == b + Join(es)
  {
    var b2 := EntriesLoop(b, es);
    StripOnlyLoopComma(b, es);
    if |es| > 0 then b2[..|b2| - 1] else b2
  }

  /** The loop writes exactly the joined entries and one comma after them,
      so removing the last byte removes that comma and never a byte of `b`. */
  lemma {:induction false} StripOnlyLoopComma(b: seq<byte>, es: seq<Pair>)
    ensures es == [] ==> EntriesLoop(b, es) == b
    ensures es != [] ==> EntriesLoop(b, es) == b + Join(es) + [COMMA]
    decreases |es|
  {
    if es != [] {
      var r := Rendered(es[0]);
      var next := b + r + [COMMA];
      assert EntriesLoop(b, es) == EntriesLoop(next, es[1..]) by {
        EntryLayout(b, es[0]);
      }
      StripOnlyLoopComma(next, es[1..]);
      if |es| > 1 {
        var j := Join(es[1..]);
        calc {
          EntriesLoop(b, es);
          EntriesLoop(next, es[1..]);
          next + j + [COMMA];
          { SeqAssoc(b, r, j); }
          b + (r + [COMMA] + j) + [COMMA];
          { JoinCons(es); }
          b + Join(es) + [COMMA];
        }
      } else {
        assert Join(es) == r;
      }
    }
  }

  lemma SeqAssoc(b: seq<byte>, r: seq<byte>, j: seq<byte>)
    ensures b + r + [COMMA] + j + [COMMA] == b + (r + [COMMA] + j) + [COMMA]
  {
  }

  lemma JoinCons(es: seq<Pair>)
    requires |es| > 1
    ensures Join(es) == Rendered(es[0]) + [COMMA] + Join(es[1..])
  {
  }

  /** One turn of the loop appends one rendered entry and a comma. */
  lemma EntryLayout(b: seq<byte>, e: Pair)
    ensures AppendEntry(b, e) == b + Rendered(e) + [COMMA]
  {
    var b1 := AppendString(b, e.key, 2);
    AppendStringShift(b, e.key, 2);
    AppendStringShift(b1 + Arrow, e.value, 2);
  }

  // Reading the text back.

  /** Reads `"key"=>"value"` entries separated by commas, up to the end. */
  function ParseEntries(t: seq<byte>): Option<seq<Pair>>
    decreases |t|
  {
    match ParseQuoted(t)
    case None => None
    case Some((k, r1)) =>
      if |r1| >= 2 && r1[..2] == Arrow then
        match ParseQuoted(r1[2..])
        case None => None
        case Some((v, r2)) =>
          if r2 == [] then Some([Pair(k, v)])
          else if r2[0] == COMMA then
            match ParseEntries(r2[1..])
            case Some(more) => Some([Pair(k, v)] + more)
            case None => None
          else None
      else None
  }

  /** Reads the whole text of a present map back, wrapper included. */
  function DecodeMap(t: seq<byte>, quote: int): Option<seq<Pair>> {
    match UnwrapLiteral(t, quote)
    case Some(u) => if u == [] then Some([]) else ParseEntries(u)
    case None => None
  }

  /** What the entry reader does once the key, the arrow and the value have
      been read. */
  lemma ParseEntriesUnfold(t: seq<byte>, k: seq<byte>, r1: seq<byte>, v: seq<byte>, r2: seq<byte>)
    requires ParseQuoted(t) == Some((k, r1))
    requires |r1| >= 2 && r1[..2] == Arrow
    requires ParseQuoted(r1[2..]) == Some((v, r2))
    ensures ParseEntries(t) ==
      if r2 == [] then Some([Pair(k, v)])
      else if r2[0] == COMMA then
        match ParseEntries(r2[1..])
        case Some(more) => Some([Pair(k, v)] + more)
        case None => None
      else None
  {
  }

  /** Reading one rendered entry and what follows it. */
  lemma ParseEntryStep(e: Pair, tail: seq<byte>)
    ensures ParseEntries(Rendered(e) + tail) ==
      var p := Pair(RemoveNul(e.key), RemoveNul(e.value));
      if tail == [] then Some([p])
      else if tail[0] == COMMA then
        match ParseEntries(tail[1..])
        case Some(more) => Some([p] + more)
        case None => None
      else None
  {
    var r1 := Arrow + AppendString([], e.value, 2) + tail;
    ReadKey(e, tail);
    ReadValue(e, tail);
    ParseEntriesUnfold(Rendered(e) + tail, RemoveNul(e.key), r1, RemoveNul(e.value), tail);
  }

  lemma ReadKey(e: Pair, tail: seq<byte>)
    ensures ParseQuoted(Rendered(e) + tail) == Some((RemoveNul(e.key), Arrow + AppendString([], e.value, 2) + tail))
  {
    var r1 := Arrow + AppendString([], e.value, 2) + tail;
    assert Rendered(e) + tail == AppendString([], e.key, 2) + r1;
    ParseQuotedString(e.key, r1);
  }

  lemma ReadValue(e: Pair, tail: seq<byte>)
    ensures var r1 := Arrow + AppendString([], e.value, 2) + tail;
      |r1| >= 2 && r1[..2] == Arrow && ParseQuoted(r1[2..]) == Some((RemoveNul(e.value), tail))
  {
    var r1 := Arrow + AppendString([], e.value, 2) + tail;
    assert r1[2..] == AppendString([], e.value, 2) + tail;
    ParseQuotedString(e.value, tail);
  }

  /** Reading the joined entries back gives every entry, in order, without
      its NUL bytes. */
  lemma {:induction false} EntriesRoundTrip(es: seq<Pair>)
    requires es != []
    ensures ParseEntries(Join(es)) == Some(Clean(es))
    decreases |es|
  {
    var e := es[0];
    var p := Pair(RemoveNul(e.key), RemoveNul(e.value));
    assert Clean(es) == [p] + Clean(es[1..]);
    if |es| == 1 {
      assert es[1..] == [];
      assert Join(es) == Rendered(e) + [];
      ParseEntryStep(e, []);
      assert Clean(es) == [p];
    } else {
      var tail := [COMMA] + Join(es[1..]);
      assert Join(es) == Rendered(e) + tail;
      assert tail[1..] == Join(es[1..]);
      ParseEntryStep(e, tail);
      EntriesRoundTrip(es[1..]);
      assert ParseEntries(tail[1..]) == Some(Clean(es[1..]));
    }
  }

  /** Reading the text of a present map back gives its entries in the order
      they were written, each without its NUL bytes. */
  lemma MapRoundTrip(b: seq<byte>, es: seq<Pair>, quote: int)
    requires DistinctKeys(es)
    ensures DecodeMap(AppendStringStringMap(b, Some(es), quote)[|b|..], quote) == Some(Clean(es))
  {
    var w := Wrapped(es, quote);
    assert (b + w)[|b|..] == w;
    var j := Join(es);
    if es != [] {
      EntriesRoundTrip(es);
    }
    if quote == 1 {
      assert w[1..|j| + 1] == j;
    }
  }

  lemma {:induction false} CleanConcat(a: seq<Pair>, c: seq<Pair>)
    ensures Clean(a + c) == Clean(a) + Clean(c)
    decreases |a|
  {
    if a == [] {
      assert a + c == c;
    } else {
      assert (a + c)[1..] == a[1..] + c;
      CleanConcat(a[1..], c);
    }
  }

  /** Two iteration orders of the same entries yield the same multiset of
      cleaned entries. */
  lemma {:induction false} CleanPermutation(es1: seq<Pair>, es2: seq<Pair>)
    requires multiset(es1) == multiset(es2)
    ensures multiset(Clean(es1)) == multiset(Clean(es2))
    decreases |es1|
  {
    if es1 == [] {
      assert |es2| == |multiset(es2)| == 0;
    } else {
      var x := es1[0];
      var pre, post := Pick(es1, es2);
      calc {
        multiset(Clean(es1));
        { CleanHead(es1); }
        multiset(Clean(es1[1..])) + multiset(Clean([x]));
        { CleanPermutation(es1[1..], pre + post); }
        multiset(Clean(pre + post)) + multiset(Clean([x]));
        { CleanPick(pre, x, post); }
        multiset(Clean(es2));
      }
    }
  }

  lemma CleanHead(es: seq<Pair>)
    requires es != []
    ensures multiset(Clean(es)) == multiset(Clean(es[1..])) + multiset(Clean([es[0]]))
  {
    assert Clean([es[0]]) == [Pair(RemoveNul(es[0].key), RemoveNul(es[0].value))];
  }

  /** Finds the first entry of `es1` in its permutation `es2`. */
  lemma Pick(es1: seq<Pair>, es2: seq<Pair>) returns (pre: seq<Pair>, post: seq<Pair>)
    requires es1 != [] && multiset(es1) == multiset(es2)
    ensures es2 == pre + [es1[0]] + post
    ensures multiset(es1[1..]) == multiset(pre + post)
  {
    var x := es1[0];
    assert x in multiset(es2);
    var i :| 0 <= i < |es2| && es2[i] == x;
    pre, post := es2[..i], es2[i + 1..];
    assert es2 == pre + [x] + post;
    assert es1 == [x] + es1[1..];
    assert multiset(es1[1..]) == multiset(es1) - multiset{x};
    assert multiset(pre + post) == multiset(es2) - multiset{x};
  }

  /** Cleaning commutes with removing one entry. */
  lemma CleanPick(pre: seq<Pair>, x: Pair, post: seq<Pair>)
    ensures multiset(Clean(pre + [x] + post)) == multiset(Clean(pre + post)) + multiset(Clean([x]))
  {
    CleanConcat(pre + [x], post);
    CleanConcat(pre, [x]);
    CleanConcat(pre, post);
  }

  /** Whatever order the map is iterated in, the text decodes to the same
      multiset of entries. */
  lemma MapOrderIrrelevant(b1: seq<byte>, b2: seq<byte>, es1: seq<Pair>, es2: seq<Pair>, quote: int)
    requires DistinctKeys(es1) && DistinctKeys(es2)
    requires multiset(es1) == multiset(es2)
    ensures
      var d1 := DecodeMap(AppendStringStringMap(b1, Some(es1), quote)[|b1|..], quote);
      var d2 := DecodeMap(AppendStringStringMap(b2, Some(es2), quote)[|b2|..], quote);
      d1.Some? && d2.Some? && multiset(d1.value) == multiset(d2.value)
  {
    MapRoundTrip(b1, es1, quote);
    MapRoundTrip(b2, es2, quote);
    CleanPermutation(es1, es2);
  }
}
