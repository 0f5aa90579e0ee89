/** Code assignment by a root-to-leaf walk (`assignCodes`, `traverse`),
    encoding by concatenating codes, and decoding by walking the tree bit
    by bit (the inner loop of `decodeFileContent` and `saveDecodedFile`).
    A bit is `true` for '1' (go right) and `false` for '0' (go left). */
module Codes {
  import opened Types
  import opened Wrappers
  import opened Frequency
  import opened Trees

  /** The code a leaf received: its symbol and its path string. */
  datatype Entry = Entry(symbol: Byte, code: seq<bool>)

  /** The codes of the leaves of `t`, left to right, when the walk reaches `t`
      having already accumulated `path`. */
  function AssignCodes(t: Tree, path: seq<bool>): (es: seq<Entry>)
    ensures |es| >= 1
    ensures forall k | 0 <= k < |es| :: path <= es[k].code
  {
    match t
    case Leaf(s, _) => [Entry(s, path)]
    case Internal(_, l, r) => AssignCodes(l, path + [false]) + AssignCodes(r, path + [true])
  }

  /** The walk gives exactly one entry per leaf. */
  lemma {:induction false} OneEntryPerLeaf(t: Tree, path: seq<bool>)
    ensures |AssignCodes(t, path)| == |Symbols(t)|
  {
    match t
    case Leaf(_, _) =>
    case Internal(_, l, r) =>
      OneEntryPerLeaf(l, path + [false]);
      OneEntryPerLeaf(r, path + [true]);
  }

  /** The node reached from `t` by following `bits`, if no bit asks for a
      child of a leaf. */
  function Follow(t: Tree, bits: seq<bool>): Option<Tree> {
    if |bits| == 0 then Some(t)
    else match t
      case Leaf(_, _) => None
      case Internal(_, l, r) => Follow(if bits[0] then r else l, bits[1..])
  }

  /** Following `code` from `t` ends on a leaf holding `s`. */
  predicate Reaches(t: Tree, code: seq<bool>, s: Byte) {
    var n := Follow(t, code);
    n.Some? && n.value.Leaf? && n.value.symbol == s
  }

  /** Each code, read after the accumulated prefix, is the path from `t` to
      the leaf it was assigned to. */
  lemma {:induction false} CodesArePaths(t: Tree, path: seq<bool>)
    ensures forall k | 0 <= k < |AssignCodes(t, path)| ::
      Reaches(t, AssignCodes(t, path)[k].code[|path|..], AssignCodes(t, path)[k].symbol)
  {
    match t
    case Leaf(_, _) =>
      assert AssignCodes(t, path)[0].code[|path|..] == [];
    case Internal(_, l, r) =>
      var left := AssignCodes(l, path + [false]);
      var right := AssignCodes(r, path + [true]);
      CodesArePaths(l, path + [false]);
      CodesArePaths(r, path + [true]);
      var es := left + right;
      forall k | 0 <= k < |es| ensures Reaches(t, es[k].code[|path|..], es[k].symbol) {
        var c := es[k].code;
        var d := c[|path|..];
        if k < |left| {
          assert es[k] == left[k];
          assert (path + [false]) <= c;
          assert |d| > 0 && d[0] == false;
          assert d[1..] == c[|path| + 1..];
          assert Follow(t, d) == Follow(l, d[1..]);
          assert |path + [false]| == |path| + 1;
          assert Reaches(l, left[k].code[|path + [false]|..], left[k].symbol);
        } else {
          assert es[k] == right[k - |left|];
          assert (path + [true]) <= c;
          assert |d| > 0 && d[0] == true;
          assert d[1..] == c[|path| + 1..];
          assert Follow(t, d) == Follow(r, d[1..]);
          assert |path + [true]| == |path| + 1;
          assert Reaches(r, right[k - |left|].code[|path + [true]|..], right[k - |left|].symbol);
        }
      }
  }

  /** No code is a prefix of a different leaf's code. */
  predicate PrefixFree(es: seq<Entry>) {
    forall i, j | 0 <= i < |es| && 0 <= j < |es| && i != j :: !(es[i].code <= es[j].code)
  }

  lemma Diverge(a: seq<bool>, b: seq<bool>, path: seq<bool>)
    requires path + [false] <= a && path + [true] <= b
    ensures !(a <= b) && !(b <= a)
  {
    assert a[|path|] == false && b[|path|] == true;
  }

  /** The assigned codes are prefix-free, hence pairwise distinct. */
  lemma {:induction false} CodesPrefixFree(t: Tree, path: seq<bool>)
    ensures PrefixFree(AssignCodes(t, path))
    ensures var es := AssignCodes(t, path);
      forall i, j | 0 <= i < |es| && 0 <= j < |es| && i != j :: es[i].code != es[j].code
  {
    match t
    case Leaf(_, _) =>
    case Internal(_, l, r) =>
      var left := AssignCodes(l, path + [false]);
      var right := AssignCodes(r, path + [true]);
      CodesPrefixFree(l, path + [false]);
      CodesPrefixFree(r, path + [true]);
      var es := left + right;
      forall i, j | 0 <= i < |es| && 0 <= j < |es| && i != j
        ensures !(es[i].code <= es[j].code)
      {
        if i < |left| && j >= |left| {
          assert es[i] == left[i] && es[j] == right[j - |left|];
          Diverge(es[i].code, es[j].code, path);
        } else if i >= |left| && j < |left| {
          assert es[j] == left[j] && es[i] == right[i - |left|];
          Diverge(es[j].code, es[i].code, path);
        } else if i < |left| {
          assert es[i] == left[i] && es[j] == left[j];
        } else {
          assert es[i] == right[i - |left|] && es[j] == right[j - |left|];
        }
      }
  }

  /** Every leaf symbol of `t` received a code. */
  lemma {:induction false} EveryLeafCoded(t: Tree, path: seq<bool>, s: Byte)
    requires s in Symbols(t)
    ensures exists k | 0 <= k < |AssignCodes(t, path)| :: AssignCodes(t, path)[k].symbol == s
  {
    match t
    case Leaf(_, _) =>
      assert AssignCodes(t, path)[0].symbol == s;
    case Internal(_, l, r) =>
      var left := AssignCodes(l, path + [false]);
      var right := AssignCodes(r, path + [true]);
      assert AssignCodes(t, path) == left + right;
      if s in Symbols(l) {
        EveryLeafCoded(l, path + [false], s);
        var k :| 0 <= k < |left| && left[k].symbol == s;
        assert AssignCodes(t, path)[k] == left[k];
      } else {
        EveryLeafCoded(r, path + [true], s);
        var k :| 0 <= k < |right| && right[k].symbol == s;
        assert AssignCodes(t, path)[|left| + k] == right[k];
      }
  }

  /** The code stored for `s`: the first entry for it, or the empty string a
      node starts with. */
  function LookupCode(es: seq<Entry>, s: Byte): (c: seq<bool>)
    ensures (exists k | 0 <= k < |es| :: es[k].symbol == s) ==>
      exists k | 0 <= k < |es| :: es[k].symbol == s && es[k].code == c
  {
    if |es| == 0 then []
    else if es[0].symbol == s then es[0].code
    else
      var c := LookupCode(es[1..], s);
      assert forall k | 1 <= k < |es| :: es[1..][k - 1] == es[k];
      c
  }

  /** The `code` field of each of the 128 table nodes after the walk from the root. */
  function CodeTable(t: Tree): (table: seq<seq<bool>>)
    ensures |table| == TableSize
  {
    seq(TableSize, s requires 0 <= s < TableSize => LookupCode(AssignCodes(t, []), s))
  }

  /** The code stored for each leaf symbol is the path from the root to a
      leaf holding that symbol. */
  lemma CodeTableReaches(t: Tree, s: Byte)
    requires s < TableSize && s in Symbols(t)
    ensures Reaches(t, CodeTable(t)[s], s)
  {
    var es := AssignCodes(t, []);
    EveryLeafCoded(t, [], s);
    CodesArePaths(t, []);
    var k :| 0 <= k < |es| && es[k].symbol == s && es[k].code == CodeTable(t)[s];
    assert es[k].code[0..] == es[k].code;
  }

  /** `encodeInputFile` / `encodeFile`: the codes of the input bytes, in order. */
  function Encode(input: seq<Byte>, table: seq<seq<bool>>): seq<bool>
    requires InAlphabet(input) && |table| == TableSize
  {
    if |input| == 0 then [] else table[input[0]] + Encode(input[1..], table)
  }

  /** Encoding is a homomorphism: the encoding of a concatenation is the
      concatenation of the encodings. */
  lemma {:induction false} EncodeAppend(a: seq<Byte>, b: seq<Byte>, table: seq<seq<bool>>)
    requires InAlphabet(a) && InAlphabet(b) && |table| == TableSize
    ensures InAlphabet(a + b)
    ensures Encode(a + b, table) == Encode(a, table) + Encode(b, table)
  {
    if |a| > 0 {
      assert (a + b)[0] == a[0];
      assert (a + b)[1..] == a[1..] + b;
      EncodeAppend(a[1..], b, table);
    } else {
      assert a + b == b;
    }
  }

  /** What the decoder has produced and where its walk stands. */
  function Emit(s: Byte, r: Result<(seq<Byte>, Tree), Error>): Result<(seq<Byte>, Tree), Error> {
    if r.Failure? then r else Success(([s] + r.value.0, r.value.1))
  }

  /** The decoding loop: from node `cur`, each bit moves to the right (1) or
      left (0) child; on reaching a leaf its symbol is emitted and the walk
      restarts at `root`. A bit read while standing on a leaf follows a null
      child pointer. The result holds the output and the node where the
      walk stands after the last bit. */
  function Walk(root: Tree, cur: Tree, bits: seq<bool>): (r: Result<(seq<Byte>, Tree), Error>)
    ensures r.Success? ==> |r.value.0| <= |bits|
    ensures r.Success? && |bits| > 0 ==> r.value.1 == root || r.value.1.Internal?
    decreases |bits|
  {
    if |bits| == 0 then Success(([], cur))
    else match cur
      case Leaf(_, _) => Failure(NullChild)
      case Internal(_, l, r) =>
        var next := if bits[0] then r else l;
        if next.Leaf? then Emit(next.symbol, Walk(root, root, bits[1..]))
        else Walk(root, next, bits[1..])
  }

  /** Walking a code from an internal node emits the symbol of the leaf it
      reaches and restarts at the root for the bits after it. */
  lemma {:induction false} WalkCode(root: Tree, cur: Tree, code: seq<bool>, rest: seq<bool>, s: Byte)
    requires cur.Internal? && Reaches(cur, code, s)
    ensures Walk(root, cur, code + rest) == Emit(s, Walk(root, root, rest))
    decreases |code|
  {
    assert |code| > 0;
    var next := if code[0] then cur.right else cur.left;
    assert (code + rest)[0] == code[0];
    assert (code + rest)[1..] == code[1..] + rest;
    assert Follow(cur, code) == Follow(next, code[1..]);
    if |code| == 1 {
      assert code[1..] == [];
      assert code[1..] + rest == rest;
    } else {
      assert next.Internal?;
      WalkCode(root, next, code[1..], rest, s);
    }
  }

  /** Decoding the encoding over the same internal-rooted tree gives the
      input back, with the walk standing at the root. */
  lemma {:induction false} DecodeEncode(t: Tree, input: seq<Byte>)
    requires t.Internal? && InAlphabet(input)
    requires forall k | 0 <= k < |input| :: input[k] in Symbols(t)
    ensures Walk(t, t, Encode(input, CodeTable(t))) == Success((input, t))
  {
    if |input| > 0 {
      var table := CodeTable(t);
      CodeTableReaches(t, input[0]);
      DecodeEncode(t, input[1..]);
      WalkCode(t, t, table[input[0]], Encode(input[1..], table), input[0]);
      assert [input[0]] + input[1..] == input;
    }
  }
}
