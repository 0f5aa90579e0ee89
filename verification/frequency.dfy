/** Frequency counting over the fixed 128-entry table, and the list of
    present symbols that both the heap building and the header walk. */
module Frequency {
  import opened Types

  /** Both copies allocate one node per ASCII value. */
  const TableSize := 128

  /** Every byte indexes the table. Bytes of 128 and above index past it in
      the source, which is undefined behaviour. */
  predicate InAlphabet(input: seq<Byte>) {
    forall i | 0 <= i < |input| :: input[i] < TableSize
  }

  function Sum(f: seq<nat>): nat {
    if |f| == 0 then 0 else f[0] + Sum(f[1..])
  }

  lemma {:induction false} SumOfZeros(n: nat)
    ensures Sum(seq(n, _ => 0)) == 0
  {
    if n > 0 {
      assert seq(n, _ => 0)[1..] == seq(n - 1, _ => 0);
      SumOfZeros(n - 1);
    }
  }

  lemma {:induction false} SumIncrement(f: seq<nat>, i: nat)
    requires i < |f|
    ensures Sum(f[i := f[i] + 1]) == Sum(f) + 1
  {
    if i > 0 {
      assert f[i := f[i] + 1][1..] == f[1..][i - 1 := f[i] + 1];
      SumIncrement(f[1..], i - 1);
    }
  }

  /** The table after reading `input` byte by byte, incrementing the counter
      of each byte read. */
  function Count(input: seq<Byte>): (freq: seq<nat>)
    requires InAlphabet(input)
    ensures |freq| == TableSize
    ensures forall s | 0 <= s < TableSize :: freq[s] == multiset(input)[s]
    ensures Sum(freq) == |input|
  {
    if |input| == 0 then
      SumOfZeros(TableSize);
      seq(TableSize, _ => 0)
    else
      var init := input[..|input| - 1];
      var last := input[|input| - 1];
      assert input == init + [last];
      var f := Count(init);
      SumIncrement(f, last);
      f[last := f[last] + 1]
  }

  /** The counting loop of class `Huffman`: one `get` before the loop and one
      at the end of each round, stopping as soon as a `get` hits the end. */
  method CountLookahead(input: seq<Byte>) returns (freq: seq<nat>)
    requires InAlphabet(input)
    ensures |freq| == TableSize
    ensures forall s | 0 <= s < TableSize :: freq[s] == multiset(input)[s]
    ensures Sum(freq) == |input|
  {
    freq := seq(TableSize, _ => 0);
    SumOfZeros(TableSize);
    var next := 0;
    var eof := next == |input|;
    while !eof
      invariant 0 <= next <= |input|
      invariant eof <==> next == |input|
      invariant |freq| == TableSize
      invariant forall s | 0 <= s < TableSize :: freq[s] == multiset(input[..next])[s]
      invariant Sum(freq) == next
      decreases |input| - next
    {
      var id := input[next];
      assert input[..next + 1] == input[..next] + [id];
      SumIncrement(freq, id);
      freq := freq[id := freq[id] + 1];
      next := next + 1;
      eof := next == |input|;
    }
    assert input[..next] == input;
  }

  /** One line of the header, one leaf of the tree: a symbol and its count. */
  datatype SymbolFreq = SymbolFreq(symbol: Byte, freq: nat)

  /** `ps` holds symbol `s` with count `f`. */
  predicate Lists(ps: seq<SymbolFreq>, s: Byte, f: nat) {
    SymbolFreq(s, f) in ps
  }

  /** The present symbols, in the order the loops `for node in arr if freq > 0`
      visit them, from table index `from` on. */
  function PresentFrom(freq: seq<nat>, from: nat): (ps: seq<SymbolFreq>)
    requires |freq| == TableSize && from <= TableSize
    ensures forall k | 0 <= k < |ps| :: from <= ps[k].symbol < TableSize && ps[k].freq == freq[ps[k].symbol] > 0
    ensures forall k, l | 0 <= k < l < |ps| :: ps[k].symbol < ps[l].symbol
    decreases TableSize - from
  {
    if from == TableSize then []
    else if freq[from] > 0 then [SymbolFreq(from, freq[from])] + PresentFrom(freq, from + 1)
    else PresentFrom(freq, from + 1)
  }

  /** Every symbol from `from` on with a nonzero count is on the list. */
  lemma {:induction false} PresentFromLists(freq: seq<nat>, from: nat, s: Byte)
    requires |freq| == TableSize && from <= s < TableSize && freq[s] > 0
    ensures Lists(PresentFrom(freq, from), s, freq[s])
    decreases TableSize - from
  {
    if s > from {
      PresentFromLists(freq, from + 1, s);
    }
  }

  /** Exactly the symbols with a nonzero count, each with its count, in
      ascending symbol order. */
  function Present(freq: seq<nat>): (ps: seq<SymbolFreq>)
    requires |freq| == TableSize
    ensures forall k | 0 <= k < |ps| :: ps[k].symbol < TableSize && ps[k].freq == freq[ps[k].symbol] > 0
    ensures forall k, l | 0 <= k < l < |ps| :: ps[k].symbol < ps[l].symbol
    ensures forall s | 0 <= s < TableSize && freq[s] > 0 :: Lists(ps, s, freq[s])
  {
    assert forall s | 0 <= s < TableSize && freq[s] > 0 :: Lists(PresentFrom(freq, 0), s, freq[s]) by {
      forall s | 0 <= s < TableSize && freq[s] > 0 {
        PresentFromLists(freq, 0, s);
      }
    }
    PresentFrom(freq, 0)
  }

  function Frequencies(ps: seq<SymbolFreq>): nat {
    if |ps| == 0 then 0 else ps[0].freq + Frequencies(ps[1..])
  }

  /** The counts on the present list add up to the whole table. */
  lemma {:induction false} PresentFromSum(freq: seq<nat>, from: nat)
    requires |freq| == TableSize && from <= TableSize
    ensures Frequencies(PresentFrom(freq, from)) == Sum(freq[from..])
    decreases TableSize - from
  {
    if from < TableSize {
      var rest := PresentFrom(freq, from + 1);
      PresentFromSum(freq, from + 1);
      assert freq[from..][1..] == freq[from + 1..];
      assert Sum(freq[from..]) == freq[from] + Sum(freq[from + 1..]);
      if freq[from] > 0 {
        var head := [SymbolFreq(from, freq[from])];
        assert PresentFrom(freq, from) == head + rest;
        assert (head + rest)[1..] == rest;
      }
    }
  }

  /** After counting, the present list's counts add up to the input length. */
  lemma PresentSumIsLength(input: seq<Byte>)
    requires InAlphabet(input)
    ensures Frequencies(Present(Count(input))) == |input|
  {
    PresentFromSum(Count(input), 0);
    assert Count(input)[0..] == Count(input);
  }
}
