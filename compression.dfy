/**
 * `compress` and `decompress` of util.h: from a text to the `.huf` file (the
 * frequency map as header, then the encoded bits) and back, with the file
 * names `decompress` derives. File contents are parameters and results.
 */
module Compression {
  import opened Common
  import opened Hashing
  import opened Chains
  import opened Header
  import opened HashMaps
  import opened Frequency
  import opened Huffman
  import opened Codes
  import opened Coding

  /** A `.huf` file: the header `operator<<` writes, then the bits `encode` writes. */
  datatype HufFile = HufFile(header: string, bits: seq<Bit>)

  /** The names `decompress` derives: the file it reads and the file it writes. */
  datatype Names = Names(input: string, output: string)

  /** What `decompress` gives back: the name of the file it writes and the decoded text. */
  datatype Output = Output(name: string, text: seq<Char>)

  /** Why `decompress` gives no text. */
  datatype Failure =
    | NoDot                   // the name has no '.', and `substr(npos, ...)` throws
    | BadHeader(HeaderError)  // the header read fails
    | EmptyMap                // the header holds no pair: `top()` of an empty queue
    | MarkedLeaf              // a header key is NOT_A_CHAR: the decoder takes its leaf for a merged node
    | LeafRoot                // a single-leaf tree: the first bit read follows a null child

  // ---------------------------------------------------------------------
  // File names
  // ---------------------------------------------------------------------

  /** `pat` occurs in `s` at position `k`. */
  predicate OccursAt(s: string, pat: string, k: nat)
  {
    k + |pat| <= |s| && s[k..k + |pat|] == pat
  }

  lemma OccursShift(s: string, pat: string)
    requires |s| > 0
    ensures forall k: nat :: OccursAt(s[1..], pat, k) ==> OccursAt(s, pat, k + 1)
    ensures forall k: nat :: 0 < k && OccursAt(s, pat, k) ==> OccursAt(s[1..], pat, k - 1)
  {
    forall k: nat
      ensures OccursAt(s[1..], pat, k) <==> OccursAt(s, pat, k + 1)
    {
      if k + |pat| <= |s| - 1 {
        assert s[1..][k..k + |pat|] == s[k + 1..k + 1 + |pat|];
      }
    }
  }

  /** `s.find(pat)`: the first position where `pat` occurs, None for `npos`. */
  function Find(s: string, pat: string): (r: Option<nat>)
    ensures r.Some? ==> OccursAt(s, pat, r.value)
    ensures r.Some? ==> forall k: nat :: k < r.value ==> !OccursAt(s, pat, k)
    ensures r.None? ==> forall k: nat :: !OccursAt(s, pat, k)
    decreases |s|
  {
    if |s| < |pat| then None
    else if s[..|pat|] == pat then Some(0)
    else
      OccursShift(s, pat);
      match Find(s[1..], pat)
      case None => None
      case Some(k) => Some(k + 1)
  }

  /**
   * The names `decompress(filename)` uses: cut the name at the first ".huf"
   * if there is one, split what is left at its first '.' into base and
   * extension, read base + extension + ".huf" and write base + "_unc" +
   * extension.
   */
  function DecompressNames(filename: string): Result<Names, Failure>
  {
    var name := match Find(filename, ".huf") case Some(p) => filename[..p] case None => filename;
    match Find(name, ".")
    case None => Err(NoDot)
    case Some(p) => Ok(Names(name[..p] + name[p..] + ".huf", name[..p] + "_unc" + name[p..]))
  }

  /** Before its end, a name without ".huf" followed by ".huf" holds no ".huf". */
  lemma NoHufBefore(filename: string, k: nat)
    requires forall j: nat :: !OccursAt(filename, ".huf", j)
    requires k < |filename|
    ensures !OccursAt(filename + ".huf", ".huf", k)
  {
    var s := filename + ".huf";
    var n := |filename|;
    if k + 4 <= n {
      assert s[k..k + 4] == filename[k..k + 4];
      assert !OccursAt(filename, ".huf", k);
    } else {
      assert s[k..k + 4][n - k] == '.';
      assert forall d :: 1 <= d < 4 ==> ".huf"[d] != '.';
    }
  }

  /** Appending ".huf" to a name without ".huf" puts its first occurrence at the end. */
  lemma HufAtEnd(filename: string)
    requires forall k: nat :: !OccursAt(filename, ".huf", k)
    ensures Find(filename + ".huf", ".huf") == Some(|filename|)
  {
    var s := filename + ".huf";
    assert s[|filename|..] == ".huf";
    assert OccursAt(s, ".huf", |filename|);
    forall k: nat | k < |filename|
      ensures !OccursAt(s, ".huf", k)
    {
      NoHufBefore(filename, k);
    }
    FindFirst(s, ".huf", |filename|);
  }

  /** A position where `pat` occurs, with no occurrence before it, is what `find` returns. */
  lemma FindFirst(s: string, pat: string, p: nat)
    requires OccursAt(s, pat, p)
    requires forall k: nat :: k < p ==> !OccursAt(s, pat, k)
    ensures Find(s, pat) == Some(p)
  {
  }

  /** A '.' at `p` with none before it is an occurrence of "." with none before it. */
  lemma DotOccurrences(name: string, p: nat)
    requires p < |name| && name[p] == '.'
    requires forall k :: 0 <= k < p ==> name[k] != '.'
    ensures OccursAt(name, ".", p)
    ensures forall k: nat :: k < p ==> !OccursAt(name, ".", k)
  {
    assert name[p..p + 1] == ".";
    forall k: nat | k < p
      ensures !OccursAt(name, ".", k)
    {
      assert name[k..k + 1][0] == name[k];
    }
  }

  /** The first '.' of a name is where `find(".")` stops. */
  lemma FirstDot(name: string, p: nat)
    requires p < |name| && name[p] == '.'
    requires forall k :: 0 <= k < p ==> name[k] != '.'
    ensures Find(name, ".") == Some(p)
  {
    DotOccurrences(name, p);
    FindFirst(name, ".", p);
  }

  /**
   * The file `compress(filename)` writes is the file `decompress` reads back
   * from the name `filename + ".huf"`, and the text goes to the name with
   * "_unc" before the first '.', when the name has a '.' and no ".huf".
   */
  lemma CompressedName(filename: string, p: nat)
    requires p < |filename| && filename[p] == '.'
    requires forall k :: 0 <= k < p ==> filename[k] != '.'
    requires forall k: nat :: !OccursAt(filename, ".huf", k)
    ensures DecompressNames(filename + ".huf")
      == Ok(Names(filename + ".huf", filename[..p] + "_unc" + filename[p..]))
  {
    HufAtEnd(filename);
    assert (filename + ".huf")[..|filename|] == filename;
    FirstDot(filename, p);
    assert filename[..p] + filename[p..] == filename;
  }

  // ---------------------------------------------------------------------
  // The pipeline
  // ---------------------------------------------------------------------

  /** The frequency map `compress` builds: the text counted into an empty map. */
  function FrequencyOf(text: seq<Char>): Table
  {
    FrequencyTable(EmptyTable(), text)
  }

  /** The keys of a text's map: the pseudo-EOF and the characters of the text, each once. */
  lemma FrequencyKeysOf(text: seq<Char>)
    ensures WellFormed(FrequencyOf(text))
    ensures forall key :: key in Keys(FrequencyOf(text)) <==> key == PseudoEof || key in text
    ensures forall m, n :: 0 <= m < n < |Keys(FrequencyOf(text))| ==> Keys(FrequencyOf(text))[m] != Keys(FrequencyOf(text))[n]
  {
    var t := FrequencyOf(text);
    FrequencyKeys(text, PseudoEof);
    forall key
      ensures key in Keys(t) <==> key == PseudoEof || key in text
    {
      FrequencyKeys(text, key);
      KeysExactlyOnce(t, key);
    }
    KeysExactlyOnce(t, PseudoEof);
  }

  lemma FirstTwoEqual(ks: seq<int>, x: int)
    requires forall i :: 0 <= i < |ks| ==> ks[i] == x
    ensures |ks| >= 2 ==> ks[0] == ks[1]
  {
  }

  /** A text's map holds two keys or more exactly when the text is not empty. */
  lemma KeyCount(text: seq<Char>, ks: seq<int>)
    requires forall key :: key in ks <==> key == PseudoEof || key in text
    requires forall m, n :: 0 <= m < n < |ks| ==> ks[m] != ks[n]
    ensures |ks| > 0
    ensures |ks| >= 2 <==> |text| > 0
  {
    assert PseudoEof in ks;
    if |text| > 0 {
      assert text[0] in ks;
      var i :| 0 <= i < |ks| && ks[i] == PseudoEof;
      var j :| 0 <= j < |ks| && ks[j] == text[0];
      assert i != j;
    } else {
      forall i | 0 <= i < |ks|
        ensures ks[i] == PseudoEof
      {
        assert ks[i] in ks;
      }
      FirstTwoEqual(ks, PseudoEof);
    }
  }

  /** A tree whose leaves are the keys of a text's map has the codes `encode` asks for. */
  lemma CodesReady(root: Tree, text: seq<Char>)
    requires forall key :: key in LeafSymbols(root) <==> key == PseudoEof || key in text
    ensures PlainLeaves(root)
    ensures PseudoEof in EncodingMap(root)
    ensures forall i :: 0 <= i < |text| ==> text[i] in EncodingMap(root)
  {
    EncodingMapShape(root);
    PlainLeavesSymbols(root);
    forall i | 0 <= i < |text|
      ensures text[i] in EncodingMap(root)
    {
      assert text[i] in text;
    }
  }

  /**
   * Whatever the text, its map holds a key, the tree has no leaf with
   * NOT_A_CHAR, every character of the text and the pseudo-EOF have a code,
   * and the root is a merged node exactly when the text is not empty.
   */
  lemma CompressReady(text: seq<Char>)
    ensures WellFormed(FrequencyOf(text))
    ensures |Flatten(FrequencyOf(text))| > 0
    ensures PlainLeaves(HuffmanTree(FrequencyOf(text)))
    ensures PseudoEof in EncodingMap(HuffmanTree(FrequencyOf(text)))
    ensures forall i :: 0 <= i < |text| ==> text[i] in EncodingMap(HuffmanTree(FrequencyOf(text)))
    ensures HuffmanTree(FrequencyOf(text)).Node? <==> |text| > 0
  {
    var m := FrequencyOf(text);
    FrequencyKeysOf(text);
    KeyCount(text, Keys(m));
    assert |Keys(m)| == |Flatten(m)|;
    HuffmanTreeShape(m);
    CodesReady(HuffmanTree(m), text);
  }

  /** The code string `compress` returns for a text: its characters' codes, then the pseudo-EOF's. */
  function CompressedCode(text: seq<Char>): string
  {
    CompressReady(text);
    var codes := EncodingMap(HuffmanTree(FrequencyOf(text)));
    Encoding(codes, text) + codes[PseudoEof]
  }

  /** The `.huf` file `compress` writes for a text: the printed map, then the code as bits. */
  function CompressedOf(text: seq<Char>): HufFile
  {
    HufFile(HeaderText(Flatten(FrequencyOf(text))), ToBits(CompressedCode(text)))
  }

  /**
   * `compress(filename)` on a file holding `text`: count the text into a new
   * map, build the tree and its codes, write the map and then the encoded
   * bits to `filename + ".huf"`, and return the code string.
   */
  method Compress(filename: string, text: seq<Char>) returns (outName: string, file: HufFile, code: string)
    ensures outName == filename + ".huf"
    ensures code == CompressedCode(text)
    ensures file == CompressedOf(text)
    ensures ToBits(code) == file.bits
  {
    var m := new HashMap();
    BuildFrequencyMap(text, m);
    CompressReady(text);
    var node := BuildEncodingTree(m);
    var codes := EncodingMap(node);
    outName := filename + ".huf";
    var header := m.Serialize();
    var size, written;
    code, size, written := Encode(text, codes, true);
    file := HufFile(header, written);
  }

  /**
   * What `decompress(filename)` gives back when the file it reads holds
   * `file`: parse the header into a new map, build the tree from it and decode
   * the bits. Where the source's behaviour is undefined the result says why.
   */
  function DecompressOf(filename: string, file: HufFile): Result<Output, Failure>
  {
    match DecompressNames(filename)
    case Err(e) => Err(e)
    case Ok(names) =>
      var read := ParseHeader(file.header);
      if read.end.Err? then Err(BadHeader(read.end.error))
      else
        var m := PutAll(EmptyTable(), read.pairs);
        if |Flatten(m)| == 0 then Err(EmptyMap)
        else
          var root := HuffmanTree(m);
          if !PlainLeaves(root) then Err(MarkedLeaf)
          else if root.Leaf? then Err(LeafRoot)
          else Ok(Output(names.output, DecodeFrom(root, root, file.bits)))
  }

  /** `decompress(filename)`, the file it reads holding `file`. */
  method Decompress(filename: string, file: HufFile) returns (r: Result<Output, Failure>)
    ensures r == DecompressOf(filename, file)
  {
    var names := DecompressNames(filename);
    if names.Err? {
      return Err(names.error);
    }
    var m := new HashMap();
    var end := m.Parse(file.header);
    if end.Err? {
      return Err(BadHeader(end.error));
    }
    var keys := m.Keys();
    if |keys| == 0 {
      return Err(EmptyMap);
    }
    var root := BuildEncodingTree(m);
    if !PlainLeaves(root) {
      return Err(MarkedLeaf);
    }
    if root.Leaf? {
      return Err(LeafRoot);
    }
    var text, output := Decode(file.bits, root);
    r := Ok(Output(names.value.output, text));
  }

  /**
   * Reading back the header of a map gives `buildEncodingTree` the same
   * pairs in the same `keys()` order, so it builds the same tree.
   */
  lemma DecompressRebuildsTree(m: Table)
    requires WellFormed(m) && |Flatten(m)| > 0
    ensures ParseHeader(HeaderText(Flatten(m))).end.Ok?
    ensures PutAll(EmptyTable(), ParseHeader(HeaderText(Flatten(m))).pairs) == m
    ensures HuffmanTree(PutAll(EmptyTable(), ParseHeader(HeaderText(Flatten(m))).pairs)) == HuffmanTree(m)
  {
    SerializeParseRoundTrip(m);
  }

  /** Once the name splits, the header reads and the tree can decode the bits, `decompress` decodes them. */
  lemma DecompressDecodes(filename: string, file: HufFile, names: Names, m: Table)
    requires DecompressNames(filename) == Ok(names)
    requires ParseHeader(file.header).end.Ok? && PutAll(EmptyTable(), ParseHeader(file.header).pairs) == m
    requires |Flatten(m)| > 0 && PlainLeaves(HuffmanTree(m)) && HuffmanTree(m).Node?
    ensures DecompressOf(filename, file) == Ok(Output(names.output, DecodeFrom(HuffmanTree(m), HuffmanTree(m), file.bits)))
  {
  }

  /** The bits `compress` writes decode, with the tree of the text's own map, to the text. */
  lemma DecodesText(text: seq<Char>)
    requires |text| > 0
    ensures |Flatten(FrequencyOf(text))| > 0 && PlainLeaves(HuffmanTree(FrequencyOf(text)))
    ensures HuffmanTree(FrequencyOf(text)).Node?
    ensures DecodeFrom(HuffmanTree(FrequencyOf(text)), HuffmanTree(FrequencyOf(text)), CompressedOf(text).bits) == text
  {
    CompressReady(text);
    var root := HuffmanTree(FrequencyOf(text));
    var codes := EncodingMap(root);
    var code := Encoding(codes, text) + codes[PseudoEof];
    assert CompressedOf(text).bits == ToBits(code);
    DecodeEncode(root, text, []);
    assert ToBits(code) + [] == ToBits(code);
  }

  /**
   * Decompressing what `compress(filename)` wrote, under the name it wrote it,
   * gives the text back and writes it to the "_unc" name. The text must not
   * be empty: see EmptyTextFails.
   */
  lemma RoundTrip(filename: string, p: nat, text: seq<Char>)
    requires |text| > 0
    requires p < |filename| && filename[p] == '.'
    requires forall k :: 0 <= k < p ==> filename[k] != '.'
    requires forall k: nat :: !OccursAt(filename, ".huf", k)
    ensures DecompressOf(filename + ".huf", CompressedOf(text))
      == Ok(Output(filename[..p] + "_unc" + filename[p..], text))
  {
    CompressedName(filename, p);
    CompressReady(text);
    var m := FrequencyOf(text);
    DecompressRebuildsTree(m);
    DecodesText(text);
    DecompressDecodes(filename + ".huf", CompressedOf(text), Names(filename + ".huf", filename[..p] + "_unc" + filename[p..]), m);
  }

  /**
   * An empty text has the single-leaf tree of the pseudo-EOF, so
   * `decompress` of what `compress` wrote for it follows a null child on its
   * first bit read.
   */
  lemma EmptyTextFails(filename: string, p: nat)
    requires p < |filename| && filename[p] == '.'
    requires forall k :: 0 <= k < p ==> filename[k] != '.'
    requires forall k: nat :: !OccursAt(filename, ".huf", k)
    ensures DecompressOf(filename + ".huf", CompressedOf([])) == Err(LeafRoot)
  {
    CompressedName(filename, p);
    CompressReady([]);
    DecompressRebuildsTree(FrequencyOf([]));
  }
}
