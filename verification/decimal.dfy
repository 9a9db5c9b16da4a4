/** Base-10 text of integers, standing in for `strconv.AppendInt` and
    `strconv.AppendUint` with base 10, and a strict parser for that text
    used as the reference the renderer is proved against. */
module Decimal {
  import opened Bytes
  import opened Wrappers

  /** Every signed Go integer width is widened to int64 before rendering. */
  newtype int64 = x: int | -0x8000_0000_0000_0000 <= x < 0x8000_0000_0000_0000

  /** Every unsigned Go integer width is widened to uint64 before rendering. */
  newtype uint64 = x: int | 0 <= x < 0x1_0000_0000_0000_0000

  predicate IsDigit(c: byte) {
    ZERO <= c <= ZERO + 9
  }

  function Digit(d: nat): (c: byte)
    requires d < 10
    ensures IsDigit(c) && c as int - ZERO as int == d
  {
    (ZERO as int + d) as byte
  }

  /** Canonical decimal text of a natural number: one or more digits and no
      leading zero except for the number 0 itself. */
  function FormatNat(n: nat): (r: seq<byte>)
    ensures |r| >= 1
    ensures forall i :: 0 <= i < |r| ==> IsDigit(r[i])
    ensures r[0] == ZERO ==> n == 0 && |r| == 1
    decreases n
  {
    if n < 10 then [Digit(n)] else FormatNat(n / 10) + [Digit(n % 10)]
  }

  /** Signed rendering: a `-` in front of the magnitude of a negative number. */
  function FormatInt(i: int): (r: seq<byte>)
    ensures |r| >= 1
    ensures r[0] == MINUS <==> i < 0
  {
    if i < 0 then [MINUS] + FormatNat(-i) else FormatNat(i)
  }

  /** The value of a run of digits, most significant first. */
  function DigitsValue(t: seq<byte>): nat
    requires forall i :: 0 <= i < |t| ==> IsDigit(t[i])
    decreases |t|
  {
    if t == [] then 0
    else
      assert IsDigit(t[|t| - 1]);
      DigitsValue(t[..|t| - 1]) * 10 + (t[|t| - 1] as int - ZERO as int)
  }

  /** Reads canonical decimal text back: digits only, at least one, and no
      leading zero unless the text is exactly `0`. */
  function ParseNat(t: seq<byte>): Option<nat> {
    if |t| == 0 then None
    else if exists i :: 0 <= i < |t| && !IsDigit(t[i]) then None
    else if |t| > 1 && t[0] == ZERO then None
    else Some(DigitsValue(t))
  }

  /** Reads signed canonical decimal text back; `-0` is not canonical. */
  function ParseInt(t: seq<byte>): Option<int> {
    if |t| > 0 && t[0] == MINUS then
      match ParseNat(t[1..])
      case Some(n) => if n > 0 then Some(0 - n as int) else None
      case None => None
    else
      match ParseNat(t)
      case Some(n) => Some(n)
      case None => None
  }

  lemma {:induction false} DigitsValueOfFormat(n: nat)
    ensures DigitsValue(FormatNat(n)) == n
    decreases n
  {
    var r := FormatNat(n);
    if n >= 10 {
      DigitsValueOfFormat(n / 10);
      assert r[..|r| - 1] == FormatNat(n / 10);
    }
  }

  /** Rendering a natural number and parsing it back gives the number. */
  lemma ParseFormatNat(n: nat)
    ensures ParseNat(FormatNat(n)) == Some(n)
  {
    DigitsValueOfFormat(n);
  }

  /** Rendering any integer and parsing it back gives the integer, so the
      rendering is also injective. */
  lemma ParseFormatInt(i: int)
    ensures ParseInt(FormatInt(i)) == Some(i)
  {
    if i < 0 {
      ParseFormatNat(-i);
      assert FormatInt(i)[1..] == FormatNat(-i);
    } else {
      ParseFormatNat(i);
    }
  }

  /** A run of digits that does not start with `0` has a positive value. */
  lemma {:induction false} DigitsValuePositive(t: seq<byte>)
    requires |t| >= 1 && t[0] != ZERO
    requires forall i :: 0 <= i < |t| ==> IsDigit(t[i])
    ensures DigitsValue(t) > 0
    decreases |t|
  {
    if |t| > 1 {
      DigitsValuePositive(t[..|t| - 1]);
    }
  }

  /** The other direction: every text the parser accepts is exactly the
      rendering of the number it denotes, so the text is canonical. */
  lemma {:induction false} FormatParseNat(t: seq<byte>, n: nat)
    requires ParseNat(t) == Some(n)
    ensures FormatNat(n) == t
    decreases |t|
  {
    if |t| > 1 {
      var init := t[..|t| - 1];
      assert forall i :: 0 <= i < |init| ==> IsDigit(init[i]) by {
        forall i | 0 <= i < |init| ensures IsDigit(init[i]) {
          assert init[i] == t[i];
        }
      }
      DigitsValuePositive(init);
      assert ParseNat(init) == Some(DigitsValue(init));
      FormatParseNat(init, DigitsValue(init));
      assert init + [t[|t| - 1]] == t;
    }
  }

  lemma FormatParseInt(t: seq<byte>, i: int)
    requires ParseInt(t) == Some(i)
    ensures FormatInt(i) == t
  {
    if |t| > 0 && t[0] == MINUS {
      FormatParseNat(t[1..], -i);
      assert [MINUS] + t[1..] == t;
    } else {
      FormatParseNat(t, i);
    }
  }
}
