/**
 * `stringIntoMap` and `buildEncodingMap` of util.h: each leaf's code is its
 * path from the root, '0' for a step to `zero` and '1' for a step to `one`.
 */
module Codes {
  import opened Common
  import opened Chains
  import opened Huffman

  /**
   * `stringIntoMap(s, node, map)`: a node whose character is not NOT_A_CHAR
   * records `s`; the walk goes on into `zero` with `s + "0"` and into `one`
   * with the copy of `s` taken before, plus "1". A later put of the same
   * character overwrites an earlier one.
   */
  function CodesFrom(t: Tree, prefix: string): map<int, string>
  {
    match t
    case Leaf(s, _) => if s != NotAChar then map[s := prefix] else map[]
    case Node(_, z, o) => CodesFrom(z, prefix + "0") + CodesFrom(o, prefix + "1")
  }

  /** `buildEncodingMap(tree)`: the walk from the root with the empty string. */
  function EncodingMap(root: Tree): map<int, string>
  {
    CodesFrom(root, "")
  }

  /** Where a path of '0'/'1' steps leads from a node; None once a step is asked of a leaf. */
  function Follow(t: Tree, path: string): Option<Tree>
    decreases |path|
  {
    if |path| == 0 then Some(t)
    else
      match t
      case Leaf(_, _) => None
      case Node(_, z, o) => Follow(if path[0] == '0' then z else o, path[1..])
  }

  /** Following `path` from `t` ends at a leaf carrying `k`. */
  predicate ReachesLeaf(t: Tree, path: string, k: int)
  {
    var end := Follow(t, path);
    end.Some? && end.value.Leaf? && end.value.sym == k
  }

  /** A string made of '0' and '1' only. */
  predicate Binary(s: string)
  {
    forall i :: 0 <= i < |s| ==> s[i] == '0' || s[i] == '1'
  }

  /** A code that starts with `prefix + step` starts with `prefix`, and its next step is `step`. */
  lemma CodeStep(code: string, prefix: string, step: string)
    requires |step| == 1 && |prefix| + 1 <= |code| && code[..|prefix| + 1] == prefix + step
    ensures code[..|prefix|] == prefix
    ensures code[|prefix|..][0] == step[0]
    ensures code[|prefix|..][1..] == code[|prefix| + 1..]
  {
    assert code[..|prefix|] == code[..|prefix| + 1][..|prefix|];
    assert code[|prefix|] == code[..|prefix| + 1][|prefix|];
  }

  lemma BinaryCons(c: char, s: string)
    requires (c == '0' || c == '1') && Binary(s)
    ensures Binary([c] + s)
  {
    assert forall i :: 0 < i < |[c] + s| ==> ([c] + s)[i] == s[i - 1];
  }

  lemma LeafSymbolsOfNode(c: int, z: Tree, o: Tree)
    ensures LeafSymbols(Node(c, z, o)) == LeafSymbols(z) + LeafSymbols(o)
  {
    assert forall e :: e in LeafEntries(Node(c, z, o)) <==> e in LeafEntries(z) || e in LeafEntries(o);
  }

  /** The walk records exactly the leaf characters other than NOT_A_CHAR. */
  lemma {:induction false} CodesKeys(t: Tree, prefix: string)
    ensures forall k :: k in CodesFrom(t, prefix) <==> k in LeafSymbols(t) && k != NotAChar
    decreases t
  {
    match t
    case Leaf(s, c) =>
      assert LeafEntries(t) == [Entry(s, c)];
      assert LeafSymbols(t) == {s};
    case Node(c, z, o) =>
      CodesKeys(z, prefix + "0");
      CodesKeys(o, prefix + "1");
      LeafSymbolsOfNode(c, z, o);
  }

  /**
   * A recorded code extends the prefix the walk started with by a string of
   * '0'/'1' steps, and those steps lead from the node to a leaf carrying the
   * character; below a merged node the steps are at least one.
   */
  lemma {:induction false} CodePath(t: Tree, prefix: string, k: int)
    requires k in CodesFrom(t, prefix)
    ensures |prefix| <= |CodesFrom(t, prefix)[k]|
    ensures CodesFrom(t, prefix)[k][..|prefix|] == prefix
    ensures Binary(CodesFrom(t, prefix)[k][|prefix|..])
    ensures ReachesLeaf(t, CodesFrom(t, prefix)[k][|prefix|..], k)
    ensures t.Node? ==> |prefix| < |CodesFrom(t, prefix)[k]|
    decreases t
  {
    match t
    case Leaf(s, _) =>
      assert CodesFrom(t, prefix)[k][|prefix|..] == [];
    case Node(_, z, o) =>
      var code := CodesFrom(t, prefix)[k];
      var step := if k in CodesFrom(o, prefix + "1") then "1" else "0";
      var child := if k in CodesFrom(o, prefix + "1") then o else z;
      assert code == CodesFrom(child, prefix + step)[k];
      CodePath(child, prefix + step, k);
      var path := code[|prefix|..];
      CodeStep(code, prefix, step);
      FirstAndRest(path);
      BinaryCons(path[0], path[1..]);
  }

  /** A path that ends at a leaf cannot be continued. */
  lemma {:induction false} FollowEndsAtLeaf(t: Tree, u: string, v: string)
    requires Follow(t, u).Some? && Follow(t, u).value.Leaf?
    requires |u| < |v| && v[..|u|] == u
    ensures Follow(t, v).None?
    decreases |u|
  {
    if |u| > 0 {
      assert v[0] == u[0];
      assert v[1..][..|u| - 1] == u[1..];
      FollowEndsAtLeaf(if u[0] == '0' then t.zero else t.one, u[1..], v[1..]);
    }
  }

  /**
   * The codes are prefix-free: no character's code begins another
   * character's code, and two characters never share a code.
   */
  lemma PrefixFree(root: Tree, a: int, b: int)
    requires a in EncodingMap(root) && b in EncodingMap(root) && a != b
    ensures var ca, cb := EncodingMap(root)[a], EncodingMap(root)[b];
      !(|ca| <= |cb| && cb[..|ca|] == ca)
  {
    var ca, cb := EncodingMap(root)[a], EncodingMap(root)[b];
    CodePath(root, "", a);
    CodePath(root, "", b);
    assert ca[0..] == ca && cb[0..] == cb;
    if |ca| < |cb| && cb[..|ca|] == ca {
      FollowEndsAtLeaf(root, ca, cb);
    } else if |ca| == |cb| {
      assert cb[..|ca|] == cb;
    }
  }

  /**
   * A tree that is a single leaf gives its character the empty code; below a
   * merged root every code is at least one step, and every code is the path to
   * a leaf carrying its character.
   */
  lemma EncodingMapShape(root: Tree)
    ensures root.Leaf? && root.sym != NotAChar ==> EncodingMap(root) == map[root.sym := ""]
    ensures forall k :: k in EncodingMap(root) <==> k in LeafSymbols(root) && k != NotAChar
    ensures forall k :: k in EncodingMap(root) ==> Binary(EncodingMap(root)[k])
    ensures root.Node? ==> forall k :: k in EncodingMap(root) ==> |EncodingMap(root)[k]| > 0
    ensures forall k :: k in EncodingMap(root) ==> ReachesLeaf(root, EncodingMap(root)[k], k)
  {
    CodesKeys(root, "");
    forall k | k in EncodingMap(root)
      ensures Binary(EncodingMap(root)[k])
      ensures root.Node? ==> |EncodingMap(root)[k]| > 0
      ensures ReachesLeaf(root, EncodingMap(root)[k], k)
    {
      CodePath(root, "", k);
      assert EncodingMap(root)[k][0..] == EncodingMap(root)[k];
    }
  }
}
