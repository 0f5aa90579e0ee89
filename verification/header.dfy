/** The text header at the front of a compressed file: one line
    "<token> <count>" per present symbol, in ascending symbol order, then a
    sentinel line (`saveTreeStructure`), and its reading back line by line
    with `getline` and `>>` (the first step of `decodeFileContent` and
    `saveDecodedFile`). */
module Header {
  import opened Types
  import opened Wrappers
  import opened Text
  import opened Frequency

  /** Which writer/reader pair produces and reads the header: one of the two
      source copies, or the corrected table in which every symbol below 128
      survives (it also escapes vertical tab and form feed, and reads `\t`). */
  datatype Dialect = Source(variant: Variant) | Corrected

  const LOWER_F: Byte := 102
  const LOWER_N: Byte := 110
  const LOWER_R: Byte := 114
  const LOWER_S: Byte := 115
  const LOWER_T: Byte := 116
  const LOWER_V: Byte := 118

  /** The line that ends the header: "@END" for class `HuffmanTree`,
      "@!#$END_MARKER$#@!" for class `Huffman`. */
  function Sentinel(d: Dialect): (m: seq<Byte>)
    ensures |m| > 0
  {
    if d == Source(HuffmanClass) then
      // @  !   #   $   E   N   D   _   M   A   R   K   E   R   $   #   @   !
      [64, 33, 35, 36, 69, 78, 68, 95, 77, 65, 82, 75, 69, 82, 36, 35, 64, 33]
    else
      // @  E   N   D
      [64, 69, 78, 68]
  }

  /** The sentinel holds neither a space nor a newline, so no symbol line and
      no part of a longer line can be mistaken for it. */
  lemma SentinelPlain(d: Dialect)
    ensures forall i | 0 <= i < |Sentinel(d)| :: Sentinel(d)[i] != SPACE && Sentinel(d)[i] != NL
  {
  }

  /** The token written for a symbol: newline, tab, carriage return, space
      and backslash are written as a backslash and one more byte (`\s` for
      space, `\\` for backslash), and so are vertical tab and form feed
      (`\v`, `\f`) in the corrected dialect; every other symbol is written
      as itself. */
  function Escape(b: Byte, d: Dialect): (tok: seq<Byte>)
    ensures 1 <= |tok| <= 2 && NotNewline(tok[0])
    ensures |tok| == 2 ==> tok[0] == BACKSLASH && NotSpace(tok[1]) && NotNewline(tok[1])
    ensures |tok| == 1 ==> tok[0] == b
  {
    if b == NL then [BACKSLASH, LOWER_N]
    else if b == TAB then [BACKSLASH, LOWER_T]
    else if b == CR then [BACKSLASH, LOWER_R]
    else if b == SPACE then [BACKSLASH, LOWER_S]
    else if b == BACKSLASH then [BACKSLASH, BACKSLASH]
    else if d.Corrected? && b == VT then [BACKSLASH, LOWER_V]
    else if d.Corrected? && b == FF then [BACKSLASH, LOWER_F]
    else [b]
  }

  /** The symbol a token stands for: the escapes the reader knows, otherwise
      the token's first byte. Class `Huffman` does not know `\t`. */
  function Unescape(tok: seq<Byte>, d: Dialect): Byte
    requires |tok| > 0
  {
    if |tok| == 2 && tok[0] == BACKSLASH then
      var c := tok[1];
      if c == LOWER_N then NL
      else if c == LOWER_T && d != Source(HuffmanClass) then TAB
      else if c == LOWER_R then CR
      else if c == LOWER_S then SPACE
      else if c == BACKSLASH then BACKSLASH
      else if c == LOWER_V && d.Corrected? then VT
      else if c == LOWER_F && d.Corrected? then FF
      else BACKSLASH
    else tok[0]
  }

  /** The symbols whose header line reads back as written. */
  predicate Escapable(b: Byte, d: Dialect) {
    b < TableSize &&
    (d.Corrected? || (b != VT && b != FF && (d == Source(HuffmanClass) ==> b != TAB)))
  }

  /** Reading a written token back gives its symbol exactly when the reader
      knows the escape the writer used. */
  lemma UnescapeEscape(b: Byte, d: Dialect)
    ensures Unescape(Escape(b, d), d) == b <==> !(b == TAB && d == Source(HuffmanClass))
  {
  }

  /** One header line, without its newline. */
  function LineBody(p: SymbolFreq, d: Dialect): seq<Byte> {
    Escape(p.symbol, d) + [SPACE] + Decimal(p.freq)
  }

  function Lines(ps: seq<SymbolFreq>, d: Dialect): seq<Byte> {
    if |ps| == 0 then [] else LineBody(ps[0], d) + [NL] + Lines(ps[1..], d)
  }

  /** `saveTreeStructure`: a line per present symbol, then the sentinel line. */
  function Serialize(ps: seq<SymbolFreq>, d: Dialect): seq<Byte> {
    Lines(ps, d) + Sentinel(d) + [NL]
  }

  /** `getline`: the bytes up to the next newline and what follows it. A last
      line without a newline is still read; at the end of the input nothing is. */
  function ReadLine(s: seq<Byte>): (r: Option<(seq<Byte>, seq<Byte>)>)
    ensures r.Some? <==> |s| > 0
    ensures r.Some? ==> |r.value.1| < |s| && forall i | 0 <= i < |r.value.0| :: NotNewline(r.value.0[i])
    ensures r.Some? && |r.value.0| < |s| ==> s == r.value.0 + [NL] + r.value.1
    ensures r.Some? ==> s == r.value.0 + [NL] + r.value.1 || (s == r.value.0 && r.value.1 == [])
  {
    if |s| == 0 then None
    else
      var n := Span(s, NotNewline);
      if n == |s| then Some((s, []))
      else
        assert s == s[..n] + [NL] + s[n + 1..];
        Some((s[..n], s[n + 1..]))
  }

  /** A line ending in a newline is read back whole. */
  lemma ReadLineOf(body: seq<Byte>, rest: seq<Byte>)
    requires forall i | 0 <= i < |body| :: NotNewline(body[i])
    ensures ReadLine(body + [NL] + rest) == Some((body, rest))
  {
    var s := body + [NL] + rest;
    SpanStopsAt(body, [NL] + rest, NotNewline);
    assert body + ([NL] + rest) == s;
    assert s[..|body|] == body && s[|body| + 1..] == rest;
  }

  /** `iss >> dataStr >> freq` on one line, then the escape lookup and
      `arr[ch]`. The count is left unread, and `BadLine` reported, when there
      is no token or only whitespace follows it: the sentry of `>> freq`
      then meets the end of the line and no number is extracted. A token
      followed by something other than digits sets the count to 0, as a
      failed extraction does; a token naming a byte of 128 or more indexes
      outside the table. */
  function ParseLine(line: seq<Byte>, d: Dialect): (r: Result<SymbolFreq, Error>)
    ensures r.Success? ==> r.value.symbol < TableSize
    ensures r.Failure? ==> r.error == BadLine || r.error == BadSymbol
    ensures r == Failure(BadLine) <==> ReadToken(line).None? || SkipSpace(ReadToken(line).value.1) == []
    ensures r == Failure(BadSymbol) <==> r != Failure(BadLine) && Unescape(ReadToken(line).value.0, d) >= TableSize
    ensures r.Success? ==> r.value.symbol == Unescape(ReadToken(line).value.0, d)
  {
    match ReadToken(line)
    case None => Failure(BadLine)
    case Some((tok, rest)) =>
      if SkipSpace(rest) == [] then Failure(BadLine)
      else
        var freq := match ReadNumber(rest) case Some(v) => v.0 case None => 0;
        var ch := Unescape(tok, d);
        if ch >= TableSize then Failure(BadSymbol) else Success(SymbolFreq(ch, freq))
  }

  /** The count field of a written line: a space and the decimal digits. */
  lemma ReadCount(f: nat)
    ensures ReadNumber([SPACE] + Decimal(f)) == Some((f, []))
  {
    var digits := Decimal(f);
    assert SkipSpace([SPACE] + digits) == digits by {
      assert ([SPACE] + digits)[1..] == digits;
    }
    ReadDecimal(f, []);
    assert digits + [] == digits;
  }

  /** A written line splits into the written token and the count field when
      the token has no whitespace in it. */
  lemma ReadLineToken(p: SymbolFreq, d: Dialect)
    requires d.Corrected? || (p.symbol != VT && p.symbol != FF)
    ensures ReadToken(LineBody(p, d)) == Some((Escape(p.symbol, d), [SPACE] + Decimal(p.freq)))
  {
    var tok := Escape(p.symbol, d);
    assert LineBody(p, d) == tok + ([SPACE] + Decimal(p.freq));
    assert forall i | 0 <= i < |tok| :: NotSpace(tok[i]);
    ReadTokenOf(tok, [SPACE] + Decimal(p.freq));
  }

  /** A written line reads back as its symbol and count when the symbol is
      escapable. */
  lemma LineRoundTrip(p: SymbolFreq, d: Dialect)
    requires Escapable(p.symbol, d)
    ensures ParseLine(LineBody(p, d), d) == Success(p)
  {
    ReadLineToken(p, d);
    ReadCount(p.freq);
    UnescapeEscape(p.symbol, d);
  }

  /** A vertical tab or form feed written as itself is skipped as whitespace
      by the reader, which then takes the count's digits as the token and
      finds nothing left for the count: the count is never read. */
  lemma SpaceSymbolMisread(p: SymbolFreq, d: Dialect)
    requires d.Source? && (p.symbol == VT || p.symbol == FF)
    ensures ReadToken(LineBody(p, d)) == Some((Decimal(p.freq), []))
    ensures ParseLine(LineBody(p, d), d) == Failure(BadLine)
  {
    var line := LineBody(p, d);
    assert line == [p.symbol, SPACE] + Decimal(p.freq);
    SpacedDigitsToken(p.symbol, Decimal(p.freq));
    assert SkipSpace([]) == [];
  }

  /** A byte the reader skips, a space and a run of digits: the digits are
      the whole token. */
  lemma SpacedDigitsToken(c: Byte, digits: seq<Byte>)
    requires IsSpace(c) && |digits| > 0 && forall i | 0 <= i < |digits| :: IsDigit(digits[i])
    ensures ReadToken([c, SPACE] + digits) == Some((digits, []))
  {
    var line := [c, SPACE] + digits;
    assert SkipSpace(line) == digits by {
      assert line[1..] == [SPACE] + digits && line[1..][1..] == digits;
      assert IsSpace(line[0]) && IsSpace(SPACE) && !IsSpace(digits[0]);
    }
    SpanStopsAt(digits, [], NotSpace);
    assert digits + [] == digits;
  }

  /** In class `Huffman` a tab is written as `\\t` but read back as a
      backslash, keeping its count. */
  lemma TabReadAsBackslash(p: SymbolFreq, d: Dialect)
    requires p.symbol == TAB && d == Source(HuffmanClass)
    ensures ParseLine(LineBody(p, d), d) == Success(SymbolFreq(BACKSLASH, p.freq))
  {
    var tok := Escape(p.symbol, d);
    assert Unescape(tok, d) == BACKSLASH by {
      assert tok == [BACKSLASH, LOWER_T];
    }
    ReadLineToken(p, d);
    ReadCount(p.freq);
  }

  /** A symbol line reads back as written exactly when its symbol is
      escapable. */
  lemma LineRoundTripIff(p: SymbolFreq, d: Dialect)
    requires p.symbol < TableSize
    ensures ParseLine(LineBody(p, d), d) == Success(p) <==> Escapable(p.symbol, d)
  {
    if Escapable(p.symbol, d) {
      LineRoundTrip(p, d);
    } else if p.symbol == VT || p.symbol == FF {
      SpaceSymbolMisread(p, d);
    } else {
      TabReadAsBackslash(p, d);
    }
  }

  /** Reading the header: symbol lines up to the sentinel line, and what
      follows the sentinel. When the input ends before the sentinel the
      source keeps the lines read so far and leaves nothing to read after
      them; the repaired reader reports the missing sentinel. */
  function ParseHeader(s: seq<Byte>, d: Dialect): (r: Result<(seq<SymbolFreq>, seq<Byte>), Error>)
    ensures r.Success? ==> |r.value.1| < |s| || r.value.1 == []
    ensures r.Success? && d.Corrected? ==> |r.value.1| < |s|
    decreases |s|
  {
    match ReadLine(s)
    case None => if d.Corrected? then Failure(NoEndMarker) else Success(([], []))
    case Some((line, rest)) =>
      if line == Sentinel(d) then Success(([], rest))
      else
        var p :- ParseLine(line, d);
        var more :- ParseHeader(rest, d);
        Success(([p] + more.0, more.1))
  }

  /** Every symbol on the list is escapable. */
  predicate AllEscapable(ps: seq<SymbolFreq>, d: Dialect) {
    forall k | 0 <= k < |ps| :: Escapable(ps[k].symbol, d)
  }

  /** Reading a symbol line, then the rest of the header. */
  lemma ParseHeaderStep(s: seq<Byte>, d: Dialect, line: seq<Byte>, rest: seq<Byte>,
                        p: SymbolFreq, more: (seq<SymbolFreq>, seq<Byte>))
    requires ReadLine(s) == Some((line, rest)) && line != Sentinel(d)
    requires ParseLine(line, d) == Success(p) && ParseHeader(rest, d) == Success(more)
    ensures ParseHeader(s, d) == Success(([p] + more.0, more.1))
  {
  }

  /** A written line has no newline in it, and is not the sentinel line,
      since it has a space in it and the sentinel does not. */
  lemma LineBodyPlain(p: SymbolFreq, d: Dialect)
    ensures forall i | 0 <= i < |LineBody(p, d)| :: NotNewline(LineBody(p, d)[i])
    ensures LineBody(p, d) != Sentinel(d)
  {
    var tok := Escape(p.symbol, d);
    var digits := Decimal(p.freq);
    var body := LineBody(p, d);
    forall i | 0 <= i < |body| ensures NotNewline(body[i]) {
      if i < |tok| {
        assert body[i] == tok[i];
      } else if i > |tok| {
        assert body[i] == digits[i - |tok| - 1];
      }
    }
    assert body[|tok|] == SPACE;
    SentinelPlain(d);
  }

  /** A written header with one more symbol starts with that symbol's line. */
  lemma SerializeCons(p: SymbolFreq, tail: seq<SymbolFreq>, d: Dialect, rest: seq<Byte>)
    ensures Serialize([p] + tail, d) + rest == LineBody(p, d) + [NL] + (Serialize(tail, d) + rest)
  {
    assert ([p] + tail)[1..] == tail;
    assert Lines([p] + tail, d) == LineBody(p, d) + [NL] + Lines(tail, d);
    Reassociate(LineBody(p, d), Lines(tail, d), Sentinel(d), rest);
  }

  /** Moving the first line out of a header followed by more bytes, over plain
      variables so that the solver does not unfold the header. */
  lemma Reassociate(body: seq<Byte>, lines: seq<Byte>, sentinel: seq<Byte>, rest: seq<Byte>)
    ensures body + [NL] + lines + sentinel + [NL] + rest == body + [NL] + (lines + sentinel + [NL] + rest)
  {
  }

  /** The first line of a written header is the first symbol's line. */
  lemma ReadFirstLine(p: SymbolFreq, tail: seq<SymbolFreq>, d: Dialect, rest: seq<Byte>)
    ensures ReadLine(Serialize([p] + tail, d) + rest) == Some((LineBody(p, d), Serialize(tail, d) + rest))
  {
    var body := LineBody(p, d);
    var after := Serialize(tail, d) + rest;
    SerializeCons(p, tail, d, rest);
    LineBodyPlain(p, d);
    ReadLineOf(body, after);
  }

  /** One more written symbol line in front of a header that reads back. */
  lemma HeaderCons(p: SymbolFreq, tail: seq<SymbolFreq>, d: Dialect, rest: seq<Byte>)
    requires Escapable(p.symbol, d)
    requires ParseHeader(Serialize(tail, d) + rest, d) == Success((tail, rest))
    ensures ParseHeader(Serialize([p] + tail, d) + rest, d) == Success(([p] + tail, rest))
  {
    ReadFirstLine(p, tail, d, rest);
    LineBodyPlain(p, d);
    LineRoundTrip(p, d);
    ParseHeaderStep(Serialize([p] + tail, d) + rest, d, LineBody(p, d), Serialize(tail, d) + rest, p, (tail, rest));
  }

  /** Reading a written header gives back the symbol list and leaves exactly
      what followed the header. */
  lemma {:induction false} HeaderRoundTrip(ps: seq<SymbolFreq>, d: Dialect, rest: seq<Byte>)
    requires AllEscapable(ps, d)
    ensures ParseHeader(Serialize(ps, d) + rest, d) == Success((ps, rest))
  {
    if |ps| == 0 {
      assert Serialize(ps, d) + rest == Sentinel(d) + [NL] + rest;
      SentinelPlain(d);
      ReadLineOf(Sentinel(d), rest);
    } else {
      HeaderRoundTrip(ps[1..], d, rest);
      HeaderCons(ps[0], ps[1..], d, rest);
      assert [ps[0]] + ps[1..] == ps;
    }
  }
}
