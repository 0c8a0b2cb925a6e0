/** Decoding: `decode_text`, a cursor that walks the tree one bit at a time. */
module Decoding {
  import opened HuffmanTypes
  import opened Codes
  import opened Encoding

  /** What `decode_text` does with the bits still to read when its cursor is at `node` and it
      has emitted `out`: each bit moves the cursor to a child (0 left, 1 right); arriving at a
      leaf emits its character and puts the cursor back at `root`. A bit read while the cursor
      is on a leaf, which happens only when the root is a leaf, fails. Bits left over once the
      input ends, short of a leaf, are dropped. */
  function Walk(root: Tree, node: Tree, bits: seq<Bit>, out: string): (r: Result<string>)
    ensures r.Err? ==> node.Leaf? || root.Leaf?
    ensures r.Ok? ==> |out| <= |r.value| <= |out| + |bits| && r.value[..|out|] == out
    decreases |bits|
  {
    if bits == [] then Ok(out)
    else match node
      case Leaf(_, _) => Err(MalformedStream)
      case Node(_, l, r) =>
        var next := if bits[0] == 0 then l else r;
        if next.Leaf? then
          var r := Walk(root, root, bits[1..], out + [next.sym]);
          assert r.Ok? ==> r.value[..|out|] == r.value[..|out| + 1][..|out|];
          r
        else Walk(root, next, bits[1..], out)
  }

  /** `decode_text(encoded_text, huffman_tree)`. It fails exactly when the tree is a lone leaf
      and there are bits to read; otherwise it yields at most one character per bit. */
  function Decode(tree: Tree, bits: seq<Bit>): (r: Result<string>)
    ensures r.Err? <==> tree.Leaf? && bits != []
    ensures r.Ok? ==> |r.value| <= |bits|
  {
    Walk(tree, tree, bits, [])
  }

  /** `decode_text`: the loop over the bits with a cursor into the tree. */
  method DecodeText(bits: seq<Bit>, tree: Tree) returns (r: Result<string>)
    ensures r == Decode(tree, bits)
  {
    var output: string := [];
    var node := tree;
    var i := 0;
    while i < |bits|
      invariant 0 <= i <= |bits|
      invariant Walk(tree, node, bits[i..], output) == Decode(tree, bits)
    {
      assert bits[i..][0] == bits[i] && bits[i..][1..] == bits[i + 1..];
      if node.Leaf? {
        return Err(MalformedStream);
      }
      node := if bits[i] == 0 then node.left else node.right;
      if node.Leaf? {
        output := output + [node.sym];
        node := tree;
      }
      i := i + 1;
    }
    assert bits[i..] == [];
    r := Ok(output);
  }

  /** Reading a whole code word from an internal node emits its character and returns the
      cursor to the root. */
  lemma {:induction false} WalkCodeWord(root: Tree, node: Tree, word: seq<Bit>, c: char, rest: seq<Bit>, out: string)
    requires word != [] && LeadsTo(node, word, c)
    ensures Walk(root, node, word + rest, out) == Walk(root, root, rest, out + [c])
    decreases |word|
  {
    assert (word + rest)[0] == word[0] && (word + rest)[1..] == word[1..] + rest;
    var next := if word[0] == 0 then node.left else node.right;
    assert Descend(node, word) == Descend(next, word[1..]);
    if next.Leaf? {
      assert word[1..] == [];
      assert word[1..] + rest == rest;
    } else {
      WalkCodeWord(root, next, word[1..], c, rest, out);
    }
  }

  /** Walking the encoding of `text` from the root emits `text`. */
  lemma {:induction false} WalkEncoded(t: Tree, text: string, out: string)
    requires t.Node? && NoDuplicates(Symbols(t))
    requires forall i | 0 <= i < |text| :: text[i] in Symbols(t)
    ensures EncodeText(text, AssignCodes(t)).Ok?
    ensures Walk(t, t, EncodeText(text, AssignCodes(t)).value, out) == Ok(out + text)
  {
    var codes := AssignCodes(t);
    CodesAreLeafPaths(t);
    if text == [] {
      assert out + text == out;
    } else {
      var c := text[0];
      assert codes[c] != [] && LeadsTo(t, codes[c], c) by {
        CodesEmptyOnlyAtLeafRoot(t);
      }
      assert forall i | 0 <= i < |text[1..]| :: text[1..][i] == text[i + 1];
      WalkEncoded(t, text[1..], out + [c]);
      var rest := EncodeText(text[1..], codes).value;
      EncodeFirst(text, codes);
      WalkCodeWord(t, t, codes[c], c, rest, out);
      assert Walk(t, t, rest, out + [c]) == Ok(out + [c] + text[1..]);
      AppendFirst(out, text);
    }
  }

  lemma AppendFirst(out: string, text: string)
    requires text != []
    ensures out + [text[0]] + text[1..] == out + text
  {
    assert text == [text[0]] + text[1..];
  }

  /** The encoding of a non-empty text starts with the code of its first character. */
  lemma EncodeFirst(text: string, codes: map<char, seq<Bit>>)
    requires text != [] && forall i | 0 <= i < |text| :: text[i] in codes
    ensures EncodeText(text, codes).Ok? && EncodeText(text[1..], codes).Ok?
    ensures EncodeText(text, codes).value == codes[text[0]] + EncodeText(text[1..], codes).value
  {
    assert forall i | 0 <= i < |text[1..]| :: text[1..][i] == text[i + 1];
  }

  /** The round trip: with two or more leaves, decoding the encoding of a text over the tree's
      characters gives the text back. */
  lemma DecodeEncode(t: Tree, text: string)
    requires t.Node? && NoDuplicates(Symbols(t))
    requires forall i | 0 <= i < |text| :: text[i] in Symbols(t)
    ensures EncodeText(text, AssignCodes(t)).Ok?
    ensures Decode(t, EncodeText(text, AssignCodes(t)).value) == Ok(text)
  {
    WalkEncoded(t, text, []);
    assert [] + text == text;
  }

  /** With a single leaf the round trip loses the text: every code is empty, the encoding has
      no bits, and decoding it gives the empty string. */
  lemma LoneLeafLosesText(t: Tree, text: string)
    requires t.Leaf?
    requires forall i | 0 <= i < |text| :: text[i] == t.sym
    ensures EncodeText(text, AssignCodes(t)) == Ok([])
    ensures Decode(t, EncodeText(text, AssignCodes(t)).value) == Ok([])
  {
    LoneLeafEncodesEmpty(t, text);
  }

  lemma {:induction false} LoneLeafEncodesEmpty(t: Tree, text: string)
    requires t.Leaf?
    requires forall i | 0 <= i < |text| :: text[i] == t.sym
    ensures EncodeText(text, AssignCodes(t)) == Ok([])
  {
    assert AssignCodes(t) == map[t.sym := []];
    if text != [] {
      assert forall i | 0 <= i < |text[1..]| :: text[1..][i] == text[i + 1];
      LoneLeafEncodesEmpty(t, text[1..]);
      var codes := AssignCodes(t);
      var none: seq<Bit> := [];
      assert text[0] in codes && codes[text[0]] == none;
      assert EncodeText(text[1..], codes).Ok?;
      assert EncodeText(text, codes) == Ok(codes[text[0]] + EncodeText(text[1..], codes).value);
      assert none + none == none;
    }
  }
}
