/**
 * `encode` and `decode` of util.h: the text becomes the concatenation of its
 * characters' codes followed by the pseudo-EOF's code, written one bit per
 * code character; decoding walks the tree bit by bit from the root.
 */
module Coding {
  import opened Common
  import opened Chains
  import opened Huffman
  import opened Codes

  // ---------------------------------------------------------------------
  // Encoding
  // ---------------------------------------------------------------------

  /** The bits `encode` writes for a code string: 0 for '0', 1 for anything else. */
  function ToBits(s: string): seq<Bit>
  {
    seq(|s|, i requires 0 <= i < |s| => if s[i] == '0' then 0 else 1)
  }

  lemma ToBitsAppend(a: string, b: string)
    ensures ToBits(a + b) == ToBits(a) + ToBits(b)
  {
    assert forall i :: 0 <= i < |a + b| ==> (a + b)[i] == if i < |a| then a[i] else b[i - |a|];
  }

  /** The codes of the characters of a text, in the order of the text. */
  function Encoding(codes: map<int, string>, s: seq<Char>): string
    requires forall i :: 0 <= i < |s| ==> s[i] in codes
    decreases |s|
  {
    if |s| == 0 then "" else codes[s[0]] + Encoding(codes, s[1..])
  }

  /**
   * `encode(input, encodingMap, output, size, makeFile)`: append the code of
   * every input character, then the code of PSEUDO_EOF; `size` is the length
   * of the result; with `makeFile` one bit is written per code character,
   * otherwise nothing is written. `get` needs every character to have a code.
   */
  method Encode(input: seq<Char>, codes: map<int, string>, makeFile: bool)
      returns (str: string, size: int, written: seq<Bit>)
    requires forall i :: 0 <= i < |input| ==> input[i] in codes
    requires PseudoEof in codes
    ensures str == Encoding(codes, input) + codes[PseudoEof]
    ensures size == |str|
    ensures written == if makeFile then ToBits(str) else []
  {
    str := "";
    var i := 0;
    while i < |input|
      invariant 0 <= i <= |input|
      invariant str + Encoding(codes, input[i..]) == Encoding(codes, input)
    {
      assert input[i..][1..] == input[i + 1..];
      ghost var tail := Encoding(codes, input[i + 1..]);
      assert str + (codes[input[i]] + tail) == (str + codes[input[i]]) + tail;
      str := str + codes[input[i]];
      i := i + 1;
    }
    assert str + "" == str;
    str := str + codes[PseudoEof];
    size := |str|;
    written := [];
    if makeFile {
      for j := 0 to |str|
        invariant written == ToBits(str[..j])
      {
        assert str[..j + 1] == str[..j] + [str[j]];
        ToBitsAppend(str[..j], [str[j]]);
        if str[j] == '0' {
          written := written + [0];
        } else {
          written := written + [1];
        }
      }
      assert str[..|str|] == str;
    }
  }

  // ---------------------------------------------------------------------
  // Decoding
  // ---------------------------------------------------------------------

  /** No leaf carries NOT_A_CHAR, so the character 257 marks the merged nodes only. */
  predicate PlainLeaves(t: Tree)
  {
    match t
    case Leaf(s, _) => s != NotAChar
    case Node(_, z, o) => PlainLeaves(z) && PlainLeaves(o)
  }

  lemma {:induction false} PlainLeavesSymbols(t: Tree)
    ensures PlainLeaves(t) <==> NotAChar !in LeafSymbols(t)
    decreases t
  {
    match t
    case Leaf(s, c) =>
      assert LeafEntries(t) == [Entry(s, c)];
      assert LeafSymbols(t) == {s};
    case Node(c, z, o) =>
      PlainLeavesSymbols(z);
      PlainLeavesSymbols(o);
      LeafSymbolsOfNode(c, z, o);
  }

  /** `str += start->character`: the int is stored into a signed char, which keeps its low eight bits. */
  function ToChar(x: int): (c: Char)
    ensures -128 <= x < 128 ==> c == x
    ensures (x - c) % 256 == 0
  {
    ((x + 128) % 256) - 128
  }

  /** The child a bit selects: `zero` for 0, `one` for 1. */
  function Child(t: Tree, bit: Bit): Tree
    requires t.Node?
  {
    if bit == 0 then t.zero else t.one
  }

  /**
   * The loop of `decode` from cursor `cur`: each bit moves the cursor; the
   * pseudo-EOF stops the loop unread; another character is appended and the
   * cursor goes back to the root; NOT_A_CHAR leaves the cursor where it is.
   * Bits running out end the loop too. Every step dereferences the cursor, so
   * the cursor must be a merged node whenever a bit is left.
   */
  function DecodeFrom(root: Tree, cur: Tree, bits: seq<Bit>): seq<Char>
    requires PlainLeaves(root) && PlainLeaves(cur)
    requires |bits| > 0 ==> root.Node? && cur.Node?
    decreases |bits|
  {
    if |bits| == 0 then []
    else
      var next := Child(cur, bits[0]);
      if Character(next) == PseudoEof then []
      else if Character(next) != NotAChar then [ToChar(Character(next))] + DecodeFrom(root, root, bits[1..])
      else DecodeFrom(root, next, bits[1..])
  }

  /**
   * `decode(input, encodingTree, output)`: read bits until the stream ends or
   * the pseudo-EOF is reached, then put every decoded character on the output
   * stream. The root must be a merged node: the loop reads at least one bit,
   * and a bit read at a leaf follows a null child.
   */
  method Decode(bits: seq<Bit>, root: Tree) returns (str: seq<Char>, output: seq<Char>)
    requires PlainLeaves(root) && root.Node?
    ensures str == DecodeFrom(root, root, bits)
    ensures output == str
  {
    str := [];
    var start := root;
    var pos := 0;
    while pos < |bits|
      invariant 0 <= pos <= |bits|
      invariant PlainLeaves(start) && (pos < |bits| ==> start.Node?)
      invariant str + DecodeFrom(root, start, bits[pos..]) == DecodeFrom(root, root, bits)
      decreases |bits| - pos
    {
      ghost var cur := start;
      var bit := bits[pos];
      if bit == 0 {
        start := start.zero;
      } else {
        start := start.one;
      }
      ghost var emits := Character(start) != NotAChar && Character(start) != PseudoEof;
      DecodeNext(root, cur, bits, pos, str, start,
        if emits then str + [ToChar(Character(start))] else str, if emits then root else start);
      pos := pos + 1;
      if Character(start) == PseudoEof {
        break;
      } else if Character(start) != NotAChar && Character(start) != PseudoEof {
        str := str + [ToChar(Character(start))];
        start := root;
      }
    }
    if pos == |bits| {
      assert str + [] == str;
    }
    output := [];
    for i := 0 to |str|
      invariant output == str[..i]
    {
      PrefixStep(str, i);
      output := output + [str[i]];
    }
    assert str[..|str|] == str;
  }

  /**
   * One turn of the loop of `decode`: the bit at `pos` moves the cursor to
   * `next`; the pseudo-EOF ends the decoding with what was emitted so far,
   * anything else keeps the loop's invariant with the character emitted and
   * the cursor back at the root, or with the cursor moved on.
   */
  lemma DecodeNext(root: Tree, cur: Tree, bits: seq<Bit>, pos: nat, str: seq<Char>, next: Tree, str': seq<Char>, cur': Tree)
    requires PlainLeaves(root) && PlainLeaves(cur) && pos < |bits| && root.Node? && cur.Node?
    requires str + DecodeFrom(root, cur, bits[pos..]) == DecodeFrom(root, root, bits)
    requires next == Child(cur, bits[pos])
    requires str' == if Character(next) != NotAChar && Character(next) != PseudoEof then str + [ToChar(Character(next))] else str
    requires cur' == if Character(next) != NotAChar && Character(next) != PseudoEof then root else next
    ensures Character(next) == PseudoEof ==> str == DecodeFrom(root, root, bits)
    ensures Character(next) != PseudoEof ==> PlainLeaves(cur') && (pos + 1 < |bits| ==> cur'.Node?)
    ensures Character(next) != PseudoEof ==> str' + DecodeFrom(root, cur', bits[pos + 1..]) == DecodeFrom(root, root, bits)
  {
    var rest := bits[pos..];
    assert rest[1..] == bits[pos + 1..];
    if Character(next) == PseudoEof {
      assert str + [] == str;
    } else if Character(next) != NotAChar {
      Regroup(str, [ToChar(Character(next))], DecodeFrom(root, root, bits[pos + 1..]));
    }
  }

  // ---------------------------------------------------------------------
  // Round trip
  // ---------------------------------------------------------------------

  /**
   * The bits of a path that leads from `cur` to a leaf take the decoder to
   * that leaf: it emits the leaf's character and starts again at the root, or
   * stops for good at the pseudo-EOF.
   */
  lemma {:induction false} DecodePath(root: Tree, cur: Tree, path: string, x: int, rest: seq<Bit>)
    requires root.Node? && PlainLeaves(root) && cur.Node? && PlainLeaves(cur)
    requires |path| > 0 && ReachesLeaf(cur, path, x)
    ensures DecodeFrom(root, cur, ToBits(path) + rest)
      == if x == PseudoEof then [] else [ToChar(x)] + DecodeFrom(root, root, rest)
    decreases |path|
  {
    var bits := ToBits(path) + rest;
    var next := Child(cur, bits[0]);
    assert next == if path[0] == '0' then cur.zero else cur.one;
    assert Follow(cur, path) == Follow(next, path[1..]);
    assert bits[1..] == ToBits(path[1..]) + rest;
    if |path| == 1 {
      assert Follow(next, path[1..]) == Some(next);
      assert next.Leaf? && Character(next) == x;
      assert bits[1..] == rest;
    } else {
      DecodePath(root, next, path[1..], x, rest);
    }
  }

  /**
   * Decoding the bits `encode` writes with the tree's own codes gives the text
   * back, whatever bits follow the pseudo-EOF's code: they are never read.
   */
  lemma {:induction false} DecodeEncode(root: Tree, s: seq<Char>, padding: seq<Bit>)
    requires root.Node? && PlainLeaves(root)
    requires forall i :: 0 <= i < |s| ==> s[i] in EncodingMap(root)
    requires PseudoEof in EncodingMap(root)
    ensures DecodeFrom(root, root, ToBits(Encoding(EncodingMap(root), s) + EncodingMap(root)[PseudoEof]) + padding) == s
    decreases |s|
  {
    var codes := EncodingMap(root);
    EncodingMapShape(root);
    if |s| == 0 {
      assert Encoding(codes, s) + codes[PseudoEof] == codes[PseudoEof];
      DecodePath(root, root, codes[PseudoEof], PseudoEof, padding);
    } else {
      var tail := Encoding(codes, s[1..]) + codes[PseudoEof];
      Regroup(codes[s[0]], Encoding(codes, s[1..]), codes[PseudoEof]);
      ToBitsAppend(codes[s[0]], tail);
      Regroup(ToBits(codes[s[0]]), ToBits(tail), padding);
      DecodePath(root, root, codes[s[0]], s[0], ToBits(tail) + padding);
      DecodeEncode(root, s[1..], padding);
      FirstAndRest(s);
    }
  }
}
