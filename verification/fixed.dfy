/** The codec with the defects of both copies repaired: the header escapes
    every byte the token reader would skip as whitespace and reads every
    escape it writes, an input with one distinct symbol gives that symbol the one-bit
    code "0", and an empty input gives an empty header. Compression cannot
    fail, and decompression inverts it for every input in the alphabet. */
module Fixed {
  import opened Types
  import opened Wrappers
  import opened Text
  import opened Frequency
  import opened Trees
  import opened Codes
  import opened Bits
  import opened Header
  import opened Codec

  /** The code table: the root-to-leaf paths, or "0" for a lone leaf. */
  function FixedCodes(t: Tree): (table: seq<seq<bool>>)
    ensures |table| == TableSize
    ensures t.Leaf? && t.symbol < TableSize ==> table[t.symbol] == [false]
    ensures t.Internal? ==> forall s | 0 <= s < TableSize && s in Symbols(t) :: Reaches(t, table[s], s)
  {
    if t.Leaf? then seq(TableSize, s requires 0 <= s < TableSize => if s == t.symbol then [false] else [])
    else
      assert forall s | 0 <= s < TableSize && s in Symbols(t) :: Reaches(t, CodeTable(t)[s], s) by {
        forall s | 0 <= s < TableSize && s in Symbols(t) ensures Reaches(t, CodeTable(t)[s], s) {
          CodeTableReaches(t, s);
        }
      }
      CodeTable(t)
  }

  /** The code string of an input: empty for an empty input. */
  function CodeString(input: seq<Byte>): seq<bool>
    requires InAlphabet(input)
  {
    var ps := Table(input);
    if |ps| == 0 then [] else Encode(input, FixedCodes(Reduce(LeavesOf(ps))))
  }

  /** Repaired `compress`. */
  function Compress(input: seq<Byte>): (file: seq<Byte>)
    requires InAlphabet(input)
  {
    var bits := CodeString(input);
    Serialize(Table(input), Corrected) + Decimal(Padding(|bits|)) + [NL] + Pack(bits)
  }

  /** Repaired `decompress`: a missing padding count is reported, an empty
      header decodes to nothing, and a lone leaf emits its symbol once per
      bit. */
  function Decompress(file: seq<Byte>): (r: Result<seq<Byte>, Error>)
    ensures r.Success? ==> |r.value| <= |file| * 8
  {
    var header :- ParseHeader(file, Corrected);
    var ps := header.0;
    match ReadNumber(header.1)
    case None => Failure(BadPadding)
    case Some((padding, after)) =>
      var bits := Unpack(if |after| > 0 then after[1..] else [], padding);
      if |ps| == 0 then Success([])
      else
        var tree := Reduce(LeavesOf(ps));
        if tree.Leaf? then Success(seq(|bits|, _ => tree.symbol))
        else
          var w :- Walk(tree, tree, bits);
          Success(w.0)
  }

  /** Decompression when the header, the padding line and the walk over the
      bits all succeed. */
  lemma DecompressStages(file: seq<Byte>, ps: seq<SymbolFreq>, trailer: seq<Byte>,
                         p: nat, bits: seq<bool>, output: seq<Byte>)
    requires ParseHeader(file, Corrected) == Success((ps, trailer))
    requires ReadNumber(trailer) == Some((p, [NL] + Pack(bits))) && Unpack(Pack(bits), p) == bits
    requires |ps| == 0 ==> output == []
    requires |ps| > 0 && Reduce(LeavesOf(ps)).Leaf? ==> output == seq(|bits|, _ => Reduce(LeavesOf(ps)).symbol)
    requires |ps| > 0 && Reduce(LeavesOf(ps)).Internal? ==>
      Walk(Reduce(LeavesOf(ps)), Reduce(LeavesOf(ps)), bits) == Success((output, Reduce(LeavesOf(ps))))
    ensures Decompress(file) == Success(output)
  {
    assert ([NL] + Pack(bits))[1..] == Pack(bits);
  }

  /** A lone symbol with code "0" encodes to one 0 bit per input byte. */
  lemma {:induction false} LoneLeafEncodes(input: seq<Byte>, table: seq<seq<bool>>, c: Byte)
    requires InAlphabet(input) && |table| == TableSize && c < TableSize && table[c] == [false]
    requires forall k | 0 <= k < |input| :: input[k] == c
    ensures Encode(input, table) == seq(|input|, _ => false)
  {
    if |input| > 0 {
      LoneLeafEncodes(input[1..], table, c);
    }
  }

  /** The decoded output from the code string of the input. */
  lemma DecodeCodeString(input: seq<Byte>)
    requires InAlphabet(input) && |input| > 0
    ensures |Table(input)| > 0
    ensures var tree := Reduce(LeavesOf(Table(input)));
      && (tree.Leaf? ==> input == seq(|CodeString(input)|, _ => tree.symbol))
      && (tree.Internal? ==> Walk(tree, tree, CodeString(input)) == Success((input, tree)))
  {
    TableLength(input);
    var tree := Reduce(LeavesOf(Table(input)));
    Covered(input);
    if tree.Leaf? {
      assert Symbols(tree) == multiset{tree.symbol};
      LoneLeafEncodes(input, FixedCodes(tree), tree.symbol);
    } else {
      assert FixedCodes(tree) == CodeTable(tree);
      DecodeEncode(tree, input);
    }
  }

  /** The compressed file reads back as the input's list, the padding count
      of its code string, and exactly that code string. */
  lemma FileReadsBack(input: seq<Byte>)
    requires InAlphabet(input)
    ensures var bits := CodeString(input);
      var trailer := Decimal(Padding(|bits|)) + [NL] + Pack(bits);
      && ParseHeader(Compress(input), Corrected) == Success((Table(input), trailer))
      && ReadNumber(trailer) == Some((Padding(|bits|), [NL] + Pack(bits)))
      && Unpack(Pack(bits), Padding(|bits|)) == bits
  {
    TableEscapable(input, Corrected);
    WrittenReadsBack(Table(input), Corrected, CodeString(input));
  }

  /** Decompressing the compressed input gives the input back, for every
      input in the alphabet, including the empty one and one of a single
      repeated symbol. */
  lemma RoundTrip(input: seq<Byte>)
    requires InAlphabet(input)
    ensures Decompress(Compress(input)) == Success(input)
  {
    var bits := CodeString(input);
    FileReadsBack(input);
    TableLength(input);
    if |input| > 0 {
      DecodeCodeString(input);
    }
    DecompressStages(Compress(input), Table(input), Decimal(Padding(|bits|)) + [NL] + Pack(bits),
                     Padding(|bits|), bits, input);
  }
}
