/** Small helper datatypes shared by the whole model. */
module Common {

  /** A value that may be absent (a missing key, a failed numeric parse). */
  datatype Option<T> = None | Some(value: T)

  /** The outcome of an operation that the source aborts with an exception. */
  datatype Result<T, E> = Ok(value: T) | Err(error: E)

  /** A signed 8-bit `char`, the unit the source reads from files and strings. */
  type Char = c: int | -128 <= c < 128

  /** The pseudo-character that marks the end of the encoded text. */
  const PseudoEof: int := 256

  /** The character carried by every internal node of a Huffman tree. */
  const NotAChar: int := 257

  /** One bit of a bit stream. */
  type Bit = b: int | 0 <= b <= 1

  /** Concatenation regroups. */
  lemma Regroup<T>(a: seq<T>, b: seq<T>, c: seq<T>)
    ensures a + (b + c) == (a + b) + c
  {
  }

  /** A non-empty sequence is its first element followed by the rest. */
  lemma FirstAndRest<T>(s: seq<T>)
    requires |s| > 0
    ensures [s[0]] + s[1..] == s
  {
  }

  /** Slicing a suffix is slicing the whole, shifted. */
  lemma SuffixSlices<T>(s: seq<T>, a: nat, b: nat)
    requires a <= b <= |s|
    ensures s[a..][..b - a] == s[a..b]
    ensures s[a..][b - a..] == s[b..]
  {
  }

  /** A prefix one longer is the prefix followed by the next element. */
  lemma PrefixStep<T>(s: seq<T>, i: nat)
    requires i < |s|
    ensures s[..i + 1] == s[..i] + [s[i]]
  {
  }
}
