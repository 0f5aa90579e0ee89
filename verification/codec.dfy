/** The whole pipeline of both copies: `compress` (count, build the tree,
    assign codes, write the header, the padding line and the packed bits)
    and `decompress` (read the header, rebuild the tree, read the padding
    line, walk the bits). The compressed file is one byte sequence. */
module Codec {
  import opened Types
  import opened Wrappers
  import opened Text
  import opened Frequency
  import opened Trees
  import opened Codes
  import opened Bits
  import opened Header

  /** The symbol/count list of an input: what the heap and the header hold. */
  function Table(input: seq<Byte>): (ps: seq<SymbolFreq>)
    requires InAlphabet(input)
  {
    Present(Count(input))
  }

  /** The input holds at least two different symbols. */
  predicate Varied(input: seq<Byte>) {
    exists i | 0 <= i < |input| :: input[i] != input[0]
  }

  /** `compress`: the header, the padding count on a line of its own, then
      the packed code string. Building the tree fails on an empty input
      (both copies) and on a single distinct symbol (class `Huffman`). */
  function Compress(input: seq<Byte>, v: Variant): (r: Result<seq<Byte>, Error>)
    requires InAlphabet(input)
  {
    var ps := Table(input);
    var tree :- BuildTree(LeavesOf(ps), v);
    var bits := Encode(input, CodeTable(tree));
    Success(Serialize(ps, Source(v)) + Decimal(Padding(|bits|)) + [NL] + Pack(bits))
  }

  /** `decompress`. Building the tree from an empty header reads the top of
      an empty queue. When no padding count can be read the stream is in a
      failed state, nothing more is read and the output is empty. The byte
      after the count is skipped. A null root (class `Huffman`, one header
      line) is only dereferenced if there is a bit to walk. A partial code at
      the end of the bits is dropped. */
  function Decompress(file: seq<Byte>, v: Variant): (r: Result<seq<Byte>, Error>)
    ensures r.Success? ==> |r.value| <= |file| * 8
  {
    var header :- ParseHeader(file, Source(v));
    var tree := BuildTree(LeavesOf(header.0), v);
    if tree.Failure? && tree.error == EmptyQueue then Failure(EmptyQueue)
    else match ReadNumber(header.1)
      case None => Success([])
      case Some((padding, after)) =>
        var payload := if |after| > 0 then after[1..] else [];
        var bits := Unpack(payload, padding);
        if tree.Failure? then
          if |bits| == 0 then Success([]) else Failure(NullRoot)
        else
          var w :- Walk(tree.value, tree.value, bits);
          Success(w.0)
  }

  // ---- facts about the symbol/count list -------------------------------

  /** Every listed symbol occurs in the input. */
  lemma TableOccurs(input: seq<Byte>)
    requires InAlphabet(input)
    ensures forall k | 0 <= k < |Table(input)| :: Table(input)[k].symbol in input
  {
    forall k | 0 <= k < |Table(input)| ensures Table(input)[k].symbol in input {
      assert multiset(input)[Table(input)[k].symbol] > 0;
    }
  }

  /** Every input symbol is on the list. */
  lemma TableLists(input: seq<Byte>, i: nat)
    requires InAlphabet(input) && i < |input|
    ensures Lists(Table(input), input[i], Count(input)[input[i]])
  {
    assert input[i] in multiset(input);
  }

  /** The list is empty exactly when the input is, and has two or more
      entries exactly when the input has two different symbols. */
  lemma TableLength(input: seq<Byte>)
    requires InAlphabet(input)
    ensures |Table(input)| == 0 <==> |input| == 0
    ensures |Table(input)| >= 2 <==> |input| > 0 && Varied(input)
  {
    var ps := Table(input);
    PresentSumIsLength(input);
    if |input| > 0 {
      TableLists(input, 0);
      if Varied(input) {
        var i :| 0 <= i < |input| && input[i] != input[0];
        TableLists(input, i);
        var a :| 0 <= a < |ps| && ps[a] == SymbolFreq(input[0], Count(input)[input[0]]);
        var b :| 0 <= b < |ps| && ps[b] == SymbolFreq(input[i], Count(input)[input[i]]);
        assert a != b;
      }
    }
  }

  /** The tree built from a non-empty list holds every input symbol. */
  lemma Covered(input: seq<Byte>)
    requires InAlphabet(input) && |input| > 0
    ensures |Table(input)| > 0
    ensures forall k | 0 <= k < |input| :: input[k] in Symbols(Reduce(LeavesOf(Table(input))))
  {
    TableLength(input);
    var t := Reduce(LeavesOf(Table(input)));
    var freq := Count(input);
    LeavesOfPresent(freq, 0);
    forall k | 0 <= k < |input| ensures input[k] in Symbols(t) {
      assert input[k] in multiset(input);
      assert ForestSymbols(LeavesOf(Table(input)))[input[k]] == 1;
    }
  }

  /** The leaves built from an input's counts hold each input symbol
      exactly once. */
  lemma LeavesOfInput(input: seq<Byte>)
    requires InAlphabet(input)
    ensures forall s: Byte :: ForestSymbols(LeavesOf(Table(input)))[s] == (if s in input then 1 else 0)
  {
    var freq := Count(input);
    LeavesOfPresent(freq, 0);
    forall s: Byte ensures ForestSymbols(LeavesOf(Table(input)))[s] == (if s in input then 1 else 0) {
      if s in input {
        var i :| 0 <= i < |input| && input[i] == s;
        assert s < TableSize && freq[s] == multiset(input)[s] > 0;
      } else {
        assert s < TableSize ==> freq[s] == multiset(input)[s] == 0;
      }
    }
  }

  /** The tree built from an input's counts is full, every internal node
      weighs what its children weigh together, its root weighs the input's
      length and its leaves hold each input symbol exactly once. */
  lemma TreeOfInput(input: seq<Byte>, v: Variant)
    requires InAlphabet(input)
    ensures BuildTree(LeavesOf(Table(input)), v).Success? ==>
      var t := BuildTree(LeavesOf(Table(input)), v).value;
      && WellFormed(t) && t.weight == |input|
      && forall s: Byte :: Symbols(t)[s] == (if s in input then 1 else 0)
  {
    LeavesWeigh(Table(input));
    PresentSumIsLength(input);
    LeavesOfInput(input);
  }

  /** Every listed symbol is escapable when every input symbol is. */
  lemma TableEscapable(input: seq<Byte>, d: Dialect)
    requires InAlphabet(input) && forall i | 0 <= i < |input| :: Escapable(input[i], d)
    ensures AllEscapable(Table(input), d)
  {
    TableOccurs(input);
  }

  // ---- the pieces after the header --------------------------------------

  /** The padding line as written is read back as the padding count,
      leaving the newline and the payload after it. */
  lemma TrailerRead(p: nat, payload: seq<Byte>)
    ensures ReadNumber(Decimal(p) + [NL] + payload) == Some((p, [NL] + payload))
  {
    var rest := [NL] + payload;
    ReadDecimal(p, rest);
    NewlineRegroup(Decimal(p), payload);
  }

  /** A line, its newline and what follows, grouped as the line and the rest. */
  lemma NewlineRegroup(line: seq<Byte>, payload: seq<Byte>)
    ensures line + [NL] + payload == line + ([NL] + payload)
  {
  }

  /** Skipping the newline and unpacking the payload gives exactly the code
      string that was packed. */
  lemma PayloadRoundTrip(bits: seq<bool>)
    ensures Unpack(([NL] + Pack(bits))[1..], Padding(|bits|)) == bits
  {
    assert ([NL] + Pack(bits))[1..] == Pack(bits);
    UnpackPack(bits);
  }

  /** Decompression when each stage succeeds: the header reads back, a
      tree is built, the padding count is read, and the walk ends. */
  lemma DecompressStages(file: seq<Byte>, v: Variant, ps: seq<SymbolFreq>, trailer: seq<Byte>,
                         tree: Tree, p: nat, after: seq<Byte>, output: seq<Byte>, last: Tree)
    requires ParseHeader(file, Source(v)) == Success((ps, trailer))
    requires BuildTree(LeavesOf(ps), v) == Success(tree)
    requires ReadNumber(trailer) == Some((p, after)) && |after| > 0
    requires Walk(tree, tree, Unpack(after[1..], p)) == Success((output, last))
    ensures Decompress(file, v) == Success(output)
  {
  }

  /** The written file is the header followed by the trailer. Stated over
      plain variables, apart from the header's definition, so that the
      reassociation is cheap for the solver. */
  lemma Regroup(header: seq<Byte>, digits: seq<Byte>, packed: seq<Byte>)
    ensures header + digits + [NL] + packed == header + (digits + [NL] + packed)
  {
  }

  /** A written file splits back into the header's list, the padding count
      and the code string, when every listed symbol is escapable. */
  lemma WrittenReadsBack(ps: seq<SymbolFreq>, d: Dialect, bits: seq<bool>)
    requires AllEscapable(ps, d)
    ensures var trailer := Decimal(Padding(|bits|)) + [NL] + Pack(bits);
      && ParseHeader(Serialize(ps, d) + Decimal(Padding(|bits|)) + [NL] + Pack(bits), d) == Success((ps, trailer))
      && ReadNumber(trailer) == Some((Padding(|bits|), [NL] + Pack(bits)))
      && Unpack(Pack(bits), Padding(|bits|)) == bits
  {
    var p := Padding(|bits|);
    var trailer := Decimal(p) + [NL] + Pack(bits);
    Regroup(Serialize(ps, d), Decimal(p), Pack(bits));
    HeaderRoundTrip(ps, d, trailer);
    TrailerRead(p, Pack(bits));
    UnpackPack(bits);
  }

  /** Decompressing a file made of a header that reads back, a written
      padding line and a payload that walks back to `output`. */
  lemma DecompressWritten(ps: seq<SymbolFreq>, v: Variant, bits: seq<bool>, tree: Tree, output: seq<Byte>)
    requires AllEscapable(ps, Source(v))
    requires BuildTree(LeavesOf(ps), v) == Success(tree)
    requires Walk(tree, tree, bits) == Success((output, tree))
    ensures Decompress(Serialize(ps, Source(v)) + Decimal(Padding(|bits|)) + [NL] + Pack(bits), v) == Success(output)
  {
    var p := Padding(|bits|);
    WrittenReadsBack(ps, Source(v), bits);
    PayloadRoundTrip(bits);
    DecompressStages(Serialize(ps, Source(v)) + Decimal(p) + [NL] + Pack(bits), v, ps,
                     Decimal(p) + [NL] + Pack(bits), tree, p, [NL] + Pack(bits), output, tree);
  }

  // ---- the source's round trip and where it breaks ----------------------

  /** Compressing then decompressing gives the input back when it holds at
      least two different symbols, all escapable in the copy's header. */
  lemma RoundTrip(input: seq<Byte>, v: Variant)
    requires InAlphabet(input) && |input| > 0 && Varied(input)
    requires forall i | 0 <= i < |input| :: Escapable(input[i], Source(v))
    ensures Compress(input, v).Success?
    ensures Decompress(Compress(input, v).value, v) == Success(input)
  {
    var ps := Table(input);
    TableLength(input);
    var tree := Reduce(LeavesOf(ps));
    assert BuildTree(LeavesOf(ps), v) == Success(tree);
    var bits := Encode(input, CodeTable(tree));
    Covered(input);
    DecodeEncode(tree, input);
    TableEscapable(input, Source(v));
    DecompressWritten(ps, v, bits, tree, input);
  }

  /** Compression fails exactly on an empty input (both copies) and on an
      input of one distinct symbol (class `Huffman`). */
  lemma CompressOutcome(input: seq<Byte>, v: Variant)
    requires InAlphabet(input)
    ensures Compress(input, v).Failure? <==> |input| == 0 || (v.HuffmanClass? && !Varied(input))
    ensures Compress(input, v).Failure? ==>
      Compress(input, v).error == (if |input| == 0 then EmptyQueue else NullRoot)
  {
    var tree := BuildTree(LeavesOf(Table(input)), v);
    assert Compress(input, v).Failure? <==> tree.Failure?;
    assert tree.Failure? ==> Compress(input, v).error == tree.error;
    assert |LeavesOf(Table(input))| == |Table(input)|;
    TableLength(input);
  }

  /** An empty input reads the top of an empty queue, in both copies. */
  lemma EmptyInputFails(v: Variant)
    ensures Compress([], v) == Failure(EmptyQueue)
  {
    assert Table([]) == [] by {
      TableLength([]);
    }
  }

  /** Class `Huffman` leaves the root null when the input has one distinct
      symbol, and compression dereferences it. */
  lemma SingleSymbolNullRoot(input: seq<Byte>)
    requires InAlphabet(input) && |input| > 0 && !Varied(input)
    ensures Compress(input, HuffmanClass) == Failure(NullRoot)
  {
    TableLength(input);
  }

  /** Class `HuffmanTree` gives the lone leaf the empty code, so nothing is
      written after the padding line and decompression yields nothing. */
  lemma SingleSymbolDecodesEmpty(input: seq<Byte>)
    requires InAlphabet(input) && |input| > 0 && !Varied(input)
    requires Escapable(input[0], Source(HuffmanTreeClass))
    ensures |Table(input)| == 1 && Reduce(LeavesOf(Table(input))).Leaf?
    ensures CodeTable(Reduce(LeavesOf(Table(input))))[input[0]] == []
    ensures Compress(input, HuffmanTreeClass).Success?
    ensures Decompress(Compress(input, HuffmanTreeClass).value, HuffmanTreeClass) == Success([])
  {
    var v := HuffmanTreeClass;
    var ps := Table(input);
    TableLength(input);
    var tree := Reduce(LeavesOf(ps));
    assert tree.Leaf?;
    Covered(input);
    assert Symbols(tree) == multiset{tree.symbol};
    var table := CodeTable(tree);
    assert table[tree.symbol] == [];
    assert Encode(input, table) == [] by {
      LoneLeafEncodesEmpty(input, table, tree.symbol);
    }
    TableEscapable(input, Source(v)) by {
      forall i | 0 <= i < |input| ensures Escapable(input[i], Source(v)) {
        assert input[i] == input[0];
      }
    }
    DecompressWritten(ps, v, [], tree, []);
  }

  /** An input of one repeated symbol whose code is empty encodes to nothing. */
  lemma {:induction false} LoneLeafEncodesEmpty(input: seq<Byte>, table: seq<seq<bool>>, c: Byte)
    requires InAlphabet(input) && |table| == TableSize && c < TableSize && table[c] == []
    requires forall k | 0 <= k < |input| :: input[k] == c
    ensures Encode(input, table) == []
  {
    if |input| > 0 {
      LoneLeafEncodesEmpty(input[1..], table, c);
    }
  }
}
