/** Byte-level text: the characters the header uses, `isspace`, decimal
    numbers as `operator<<` writes them and `operator>>` reads them, and
    greedy scanning. */
module Text {
  import opened Types
  import opened Wrappers

  const TAB: Byte := 9
  const NL: Byte := 10
  const VT: Byte := 11
  const FF: Byte := 12
  const CR: Byte := 13
  const SPACE: Byte := 32
  const ZERO: Byte := 48
  const BACKSLASH: Byte := 92

  /** `isspace` in the "C" locale: space, tab, newline, vertical tab, form feed, carriage return. */
  predicate IsSpace(b: Byte) {
    b == SPACE || TAB <= b <= CR
  }

  predicate IsDigit(b: Byte) {
    ZERO <= b <= ZERO + 9
  }

  predicate NotSpace(b: Byte) {
    !IsSpace(b)
  }

  predicate NotNewline(b: Byte) {
    b != NL
  }

  /** Length of the longest prefix of `s` whose bytes all satisfy `p`. */
  function Span(s: seq<Byte>, p: Byte -> bool): (n: nat)
    ensures n <= |s|
    ensures forall i | 0 <= i < n :: p(s[i])
    ensures n == |s| || !p(s[n])
  {
    if |s| > 0 && p(s[0]) then 1 + Span(s[1..], p) else 0
  }

  /** The span over `a + b` stops exactly at the end of `a` when every byte of
      `a` satisfies `p` and `b` starts with a byte that does not. */
  lemma SpanStopsAt(a: seq<Byte>, b: seq<Byte>, p: Byte -> bool)
    requires forall i | 0 <= i < |a| :: p(a[i])
    requires |b| == 0 || !p(b[0])
    ensures Span(a + b, p) == |a|
  {
    assert forall i | 0 <= i < |a| :: (a + b)[i] == a[i];
    if |b| > 0 {
      assert (a + b)[|a|] == b[0];
    }
  }

  /** What `is >> std::ws` leaves: `s` without its leading whitespace. */
  function SkipSpace(s: seq<Byte>): (r: seq<Byte>)
    ensures |r| <= |s| && r == s[|s| - |r|..]
    ensures forall i | 0 <= i < |s| - |r| :: IsSpace(s[i])
    ensures |r| == 0 || !IsSpace(r[0])
  {
    if |s| > 0 && IsSpace(s[0]) then SkipSpace(s[1..]) else s
  }

  /** The decimal digits `operator<<` writes for an unsigned number: no sign, no leading zero. */
  function Decimal(n: nat): (r: seq<Byte>)
    ensures |r| >= 1
    ensures forall i | 0 <= i < |r| :: IsDigit(r[i])
    ensures |r| > 1 ==> r[0] != ZERO
  {
    if n < 10 then [ZERO + n] else Decimal(n / 10) + [ZERO + n % 10]
  }

  /** `t` is a nonempty run of decimal digits worth `v`, followed by `rest`. */
  predicate DigitsThen(t: seq<Byte>, v: nat, rest: seq<Byte>) {
    var n := |t| - |rest|;
    && 0 < n <= |t| && t[n..] == rest
    && (forall i | 0 <= i < n :: IsDigit(t[i]))
    && v == DigitsValue(t[..n])
  }

  /** The value of a run of decimal digits, read most significant first as `operator>>` does. */
  function DigitsValue(ds: seq<Byte>): nat
    requires forall i | 0 <= i < |ds| :: IsDigit(ds[i])
  {
    if |ds| == 0 then 0
    else
      var last := ds[|ds| - 1];
      assert IsDigit(last);
      DigitsValue(ds[..|ds| - 1]) * 10 + (last - ZERO)
  }

  /** Reading back a written decimal gives the number that was written. */
  lemma {:induction false} DecimalRoundTrip(n: nat)
    ensures DigitsValue(Decimal(n)) == n
    decreases n
  {
    if n >= 10 {
      DecimalRoundTrip(n / 10);
      var d := Decimal(n);
      assert d[..|d| - 1] == Decimal(n / 10);
    }
  }

  /** `is >> str`: skip whitespace, then take the longest run of non-space
      bytes; nothing when only whitespace is left. */
  function ReadToken(s: seq<Byte>): (r: Option<(seq<Byte>, seq<Byte>)>)
    ensures r.Some? <==> |SkipSpace(s)| > 0
    ensures r.Some? ==> |r.value.0| > 0 && (|r.value.1| == 0 || IsSpace(r.value.1[0]))
    ensures r.Some? ==> SkipSpace(s) == r.value.0 + r.value.1 && forall i | 0 <= i < |r.value.0| :: NotSpace(r.value.0[i])
  {
    var t := SkipSpace(s);
    var n := Span(t, NotSpace);
    assert t == t[..n] + t[n..];
    if n == 0 then None else Some((t[..n], t[n..]))
  }

  /** A token followed by whitespace or the end is read back whole. */
  lemma ReadTokenOf(tok: seq<Byte>, rest: seq<Byte>)
    requires |tok| > 0 && forall i | 0 <= i < |tok| :: NotSpace(tok[i])
    requires |rest| == 0 || IsSpace(rest[0])
    ensures ReadToken(tok + rest) == Some((tok, rest))
  {
    var s := tok + rest;
    assert s[0] == tok[0];
    SpanStopsAt(tok, rest, NotSpace);
    assert s[..|tok|] == tok && s[|tok|..] == rest;
  }

  /** An unsigned number read greedily from the front of `s`, after skipping
      whitespace: the value and what follows the digits. */
  function ReadNumber(s: seq<Byte>): (r: Option<(nat, seq<Byte>)>)
    ensures r.Some? <==> |SkipSpace(s)| > 0 && IsDigit(SkipSpace(s)[0])
    ensures r.Some? ==> |r.value.1| < |s| && (|r.value.1| == 0 || !IsDigit(r.value.1[0]))
    ensures r.Some? ==> DigitsThen(SkipSpace(s), r.value.0, r.value.1)
  {
    var t := SkipSpace(s);
    var n := Span(t, IsDigit);
    assert t[|t| - |t[n..]|..] == t[n..];
    if n == 0 then None else Some((DigitsValue(t[..n]), t[n..]))
  }

  /** Writing a number and reading it back stops at the first non-digit and yields the number. */
  lemma ReadDecimal(n: nat, rest: seq<Byte>)
    requires |rest| == 0 || !IsDigit(rest[0])
    ensures ReadNumber(Decimal(n) + rest) == Some((n, rest))
  {
    var d := Decimal(n);
    assert (d + rest)[0] == d[0];
    assert SkipSpace(d + rest) == d + rest;
    SpanStopsAt(d, rest, IsDigit);
    assert (d + rest)[..|d|] == d;
    assert (d + rest)[|d|..] == rest;
    DecimalRoundTrip(n);
  }
}
