/** The codec end to end, as the driver chains it for one input: count, build, assign codes,
    write the encoded file, read it back and decode it. */
module Pipeline {
  import opened HuffmanTypes
  import opened Frequencies
  import opened TreeBuilder
  import opened Codes
  import opened Encoding
  import opened Decoding
  import opened Framing

  /** The round trip through the file's bytes: with two or more leaves, decoding what was
      written gives the text back. */
  lemma FileRoundTrip(t: Tree, text: string)
    requires t.Node? && NoDuplicates(Symbols(t))
    requires forall i | 0 <= i < |text| :: text[i] in Symbols(t)
    ensures EncodeText(text, AssignCodes(t)).Ok?
    ensures Decode(t, Payload(PackSpec(Frame(EncodeText(text, AssignCodes(t)).value)))) == Ok(text)
  {
    DecodeEncode(t, text);
    FrameRoundTrip(EncodeText(text, AssignCodes(t)).value);
  }

  /** A tree whose leaves are the keys of the text's own table has as many leaves as the text
      has distinct characters, a leaf for every character of the text, and, when it is a lone
      leaf, that leaf's character is the only one in the text. */
  lemma TreeCoversText(text: string, f: FreqTable, tree: Tree)
    requires f == Tally(text)
    requires multiset(Symbols(tree)) == multiset(f.order)
    ensures |Symbols(tree)| == |f.order|
    ensures forall i | 0 <= i < |text| :: text[i] in Symbols(tree)
    ensures tree.Leaf? ==> forall i | 0 <= i < |text| :: text[i] == tree.sym
  {
    assert |multiset(Symbols(tree))| == |multiset(f.order)|;
    forall i | 0 <= i < |text| ensures text[i] in Symbols(tree) {
      assert text[i] in f.count;
      assert text[i] in multiset(f.order);
    }
  }

  /** The driver's encode-then-verify sequence for one text. An empty text fails when the
      tree is built; a text with a single distinct character comes back empty, because its
      only code is empty; any other text comes back unchanged. */
  method CompressAndVerify(text: string) returns (r: Result<string>)
    ensures text == [] ==> r == Err(InvalidInput)
    ensures |Tally(text).order| == 1 ==> r == Ok([])
    ensures |Tally(text).order| >= 2 ==> r == Ok(text)
  {
    var frequencies := CountFrequencies(text);
    var built := BuildTree(frequencies);
    if built.Err? {
      return Err(built.error);
    }
    var tree := built.value;
    var codes := AssignCodes(tree);
    TreeCoversText(text, frequencies, tree);
    CodesAreLeafPaths(tree);
    var encoded := EncodeToFile(text, codes);
    assert encoded.Ok?;
    var decoded := DecodeFromFile(encoded.value.1, tree);
    if tree.Node? {
      FileRoundTrip(tree, text);
    } else {
      LoneLeafLosesText(tree, text);
      FrameRoundTrip([]);
    }
    r := decoded;
  }
}
