/** The code generator (`generate_codes`): a walk from the root that
    appends '0' for a left branch and '1' for a right branch. */
module CodeGen {
  import opened Wrappers
  import opened BitString
  import opened HuffmanTree

  /** Symbol -> code. */
  type CodeTable = map<char, Bits>

  /** No code is a prefix of another symbol's code (so, in particular, no
      two symbols share a code). */
  predicate PrefixFree(codes: CodeTable) {
    forall a, b :: a in codes && b in codes && a != b ==> !IsPrefix(codes[a], codes[b])
  }

  predicate NonEmptyCodes(codes: CodeTable) {
    forall c :: c in codes ==> |codes[c]| > 0
  }

  /** Two bit strings that branch apart after a common stem `p` are not
      prefixes of one another. */
  lemma Diverge(p: Bits, x: Bits, y: Bits)
    requires IsPrefix(p + [false], x) && IsPrefix(p + [true], y)
    ensures !IsPrefix(x, y) && !IsPrefix(y, x)
  {
    assert x[|p|] == (p + [false])[|p|];
    assert y[|p|] == (p + [true])[|p|];
  }

  lemma PrefixOfExtension(p: Bits, b: bool, x: Bits)
    requires IsPrefix(p + [b], x)
    ensures IsPrefix(p, x) && |x| > |p| && x[|p|] == b
  {
    assert x[..|p|] == (p + [b])[..|p|];
    assert x[|p|] == (p + [b])[|p|];
  }

  /** Joining the left subtree's table (codes under `p`+'0') with the right
      subtree's (codes under `p`+'1') keeps the table prefix-free. */
  lemma {:induction false} PrefixFreeJoin(p: Bits, l: CodeTable, r: CodeTable)
    requires PrefixFree(l) && PrefixFree(r)
    requires forall c :: c in l ==> IsPrefix(p + [false], l[c])
    requires forall c :: c in r ==> IsPrefix(p + [true], r[c])
    ensures PrefixFree(l + r)
  {
    var m := l + r;
    forall a, b | a in m && b in m && a != b
      ensures !IsPrefix(m[a], m[b])
    {
      if a in r && b in r {
      } else if a in r {
        Diverge(p, m[b], m[a]);
      } else if b in r {
        Diverge(p, m[a], m[b]);
      }
    }
  }

  /** The walk below a node reached along `code`. A leaf takes the path to
      it as its code, except that a leaf reached along the empty path (a
      tree that is a lone leaf) takes the one-bit code '0'. Every code
      written extends the stem, and strictly so below an internal node. */
  function CodesFrom(t: Tree, code: Bits): (codes: CodeTable)
    ensures codes.Keys == Symbols(t)
    ensures forall c :: c in codes ==> |codes[c]| > 0 && IsPrefix(code, codes[c])
    ensures t.Node? ==> forall c :: c in codes ==> |codes[c]| > |code|
  {
    match t
    case Leaf(c, _) => map[c := if code == [] then [false] else code]
    case Node(_, l, r) =>
      var lc := CodesFrom(l, code + [false]);
      var rc := CodesFrom(r, code + [true]);
      assert forall c :: c in lc ==> IsPrefix(code, lc[c]) by {
        forall c | c in lc ensures IsPrefix(code, lc[c]) {
          PrefixOfExtension(code, false, lc[c]);
        }
      }
      assert forall c :: c in rc ==> IsPrefix(code, rc[c]) by {
        forall c | c in rc ensures IsPrefix(code, rc[c]) {
          PrefixOfExtension(code, true, rc[c]);
        }
      }
      lc + rc
  }

  /** The walk writes a prefix-free table, whatever the tree: the left
      subtree's codes continue the stem with '0', the right's with '1'. */
  lemma {:induction false} CodesFromPrefixFree(t: Tree, code: Bits)
    ensures PrefixFree(CodesFrom(t, code))
  {
    if t.Node? {
      CodesFromPrefixFree(t.left, code + [false]);
      CodesFromPrefixFree(t.right, code + [true]);
      CodesFromNode(t, code);
      PrefixFreeJoin(code, CodesFrom(t.left, code + [false]), CodesFrom(t.right, code + [true]));
    }
  }

  /** `generate_codes`: the empty table when there is no tree; otherwise a
      prefix-free table of non-empty codes, one per symbol of the tree. A
      tree that is a lone leaf gives its symbol the code '0'. */
  function GenerateCodes(root: Option<Tree>): (codes: CodeTable)
    ensures root.None? ==> codes == map[]
    ensures root.Some? ==> codes.Keys == Symbols(root.value)
    ensures PrefixFree(codes) && NonEmptyCodes(codes)
    ensures root.Some? && root.value.Leaf? ==> codes == map[root.value.ch := [false]]
  {
    match root
    case None => map[]
    case Some(t) =>
      CodesFromPrefixFree(t, []);
      CodesFrom(t, [])
  }

  /** The symbol reached by following `path` from the root of `t` (0 = left,
      1 = right), if the path ends exactly on a leaf. */
  function Follow(t: Tree, path: Bits): Option<char>
    decreases |path|
  {
    match t
    case Leaf(c, _) => if path == [] then Some(c) else None
    case Node(_, l, r) => if path == [] then None else Follow(if path[0] then r else l, path[1..])
  }

  lemma CodesFromNode(t: Tree, code: Bits)
    requires t.Node?
    ensures CodesFrom(t, code) == CodesFrom(t.left, code + [false]) + CodesFrom(t.right, code + [true])
  {
  }

  lemma FollowNode(t: Tree, path: Bits)
    requires t.Node? && |path| > 0
    ensures Follow(t, path) == Follow(if path[0] then t.right else t.left, path[1..])
  {
  }

  /** Every code written below a stem leads, past the stem, to its own leaf. */
  lemma {:induction false} CodeLeadsToLeaf(t: Tree, code: Bits, c: char)
    requires t.Node? || code != []
    requires c in CodesFrom(t, code)
    ensures Follow(t, CodesFrom(t, code)[c][|code|..]) == Some(c)
  {
    if t.Node? {
      var b := c in CodesFrom(t.right, code + [true]);
      var sub := if b then t.right else t.left;
      var w := CodesFrom(t, code)[c];
      CodesFromNode(t, code);
      assert c in CodesFrom(sub, code + [b]) && w == CodesFrom(sub, code + [b])[c];
      CodeLeadsToLeaf(sub, code + [b], c);
      PrefixOfExtension(code, b, w);
      var tail := w[|code|..];
      assert tail[0] == b && tail[1..] == w[|code| + 1..];
      FollowNode(t, tail);
    }
  }

  /** In a tree with unique symbols, a symbol's code is the one its own
      subtree's walk gave it. */
  lemma CodeFromSubtree(t: Tree, code: Bits, b: bool, c: char)
    requires t.Node? && UniqueSymbols(t)
    requires c in CodesFrom(if b then t.right else t.left, code + [b])
    ensures c in CodesFrom(t, code)
    ensures CodesFrom(t, code)[c] == CodesFrom(if b then t.right else t.left, code + [b])[c]
  {
    CodesFromNode(t, code);
    if !b {
      assert c in Symbols(t.left);
      assert c !in CodesFrom(t.right, code + [true]);
    }
  }

  /** In a tree whose symbols are unique, the path to a leaf, past the stem,
      is that leaf's code. */
  lemma {:induction false} LeafPathIsCode(t: Tree, code: Bits, path: Bits, c: char)
    requires t.Node? || code != []
    requires UniqueSymbols(t)
    requires Follow(t, path) == Some(c)
    ensures c in CodesFrom(t, code) && CodesFrom(t, code)[c] == code + path
    decreases |path|
  {
    if t.Leaf? {
      assert path == [];
    } else {
      var b := path[0];
      var rest := path[1..];
      FollowNode(t, path);
      assert code + [b] + rest == code + path by {
        assert path == [b] + rest;
      }
      if b {
        LeafPathIsCode(t.right, code + [true], rest, c);
        CodeFromSubtree(t, code, true, c);
      } else {
        LeafPathIsCode(t.left, code + [false], rest, c);
        CodeFromSubtree(t, code, false, c);
      }
    }
  }

  /** For a tree with at least one internal node and unique symbols, a
      symbol's code is exactly the root-to-leaf path to that symbol (so its
      length is the leaf's depth), and every root-to-leaf path is the code
      of the leaf it reaches. */
  lemma CodesArePaths(t: Tree)
    requires t.Node? && UniqueSymbols(t)
    ensures forall c :: c in GenerateCodes(Some(t)) ==> Follow(t, GenerateCodes(Some(t))[c]) == Some(c)
    ensures forall path :: Follow(t, path).Some? ==>
      var c := Follow(t, path).value;
      c in GenerateCodes(Some(t)) && GenerateCodes(Some(t))[c] == path
  {
    var codes := GenerateCodes(Some(t));
    forall c | c in codes
      ensures Follow(t, codes[c]) == Some(c)
    {
      CodeLeadsToLeaf(t, [], c);
      assert codes[c][0..] == codes[c];
    }
    forall path | Follow(t, path).Some?
      ensures Follow(t, path).value in codes && codes[Follow(t, path).value] == path
    {
      LeafPathIsCode(t, [], path, Follow(t, path).value);
      assert [] + path == path;
    }
  }
}
