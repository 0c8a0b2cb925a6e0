/** Encoding: `encode_text_using_huffman`, the codes of the text's characters joined in order. */
module Encoding {
  import opened HuffmanTypes
  import opened Frequencies

  /** `''.join(huffman_codes[char] for char in text)`. A character without a code fails, as the
      dict lookup does, naming the first such character. */
  function EncodeText(text: string, codes: map<char, seq<Bit>>): (r: Result<seq<Bit>>)
    ensures r.Ok? <==> forall i | 0 <= i < |text| :: text[i] in codes
    ensures r.Err? ==> r.error.UnknownSymbol? && r.error.c !in codes
    ensures r.Err? ==> exists k | 0 <= k < |text| ::
      text[k] == r.error.c && forall j | 0 <= j < k :: text[j] in codes
  {
    if text == [] then Ok([])
    else if text[0] !in codes then Err(UnknownSymbol(text[0]))
    else
      var rest := EncodeText(text[1..], codes);
      assert forall i | 1 <= i < |text| :: text[i] == text[1..][i - 1];
      if rest.Err? then
        var k :| 0 <= k < |text[1..]| && text[1..][k] == rest.error.c
          && forall j | 0 <= j < k :: text[1..][j] in codes;
        assert text[k + 1] == rest.error.c && forall j | 0 <= j < k + 1 :: text[j] in codes;
        Err(rest.error)
      else Ok(codes[text[0]] + rest.value)
  }

  /** The length of each character's code, 0 for a character without one. */
  function CodeLengths(codes: map<char, seq<Bit>>): char -> nat {
    c => if c in codes then |codes[c]| else 0
  }

  /** `sum(freq[c] * len(code[c]) for c in freq)`: the size of the encoding predicted from the
      frequency table. */
  function Cost(f: FreqTable, codes: map<char, seq<Bit>>): nat
    requires f.Valid()
  {
    Weighted(f.order, f.count, CodeLengths(codes))
  }

  /** Encoding a concatenation concatenates the encodings. */
  lemma {:induction false} EncodeAppend(a: string, b: string, codes: map<char, seq<Bit>>)
    requires EncodeText(a, codes).Ok? && EncodeText(b, codes).Ok?
    ensures EncodeText(a + b, codes) == Ok(EncodeText(a, codes).value + EncodeText(b, codes).value)
  {
    if a == [] {
      assert a + b == b;
      assert EncodeText(a, codes).value + EncodeText(b, codes).value == EncodeText(b, codes).value;
    } else {
      assert (a + b)[0] == a[0] && (a + b)[1..] == a[1..] + b;
      EncodeAppend(a[1..], b, codes);
      var head, tail, rest := codes[a[0]], EncodeText(a[1..], codes).value, EncodeText(b, codes).value;
      assert EncodeText(a, codes).value == head + tail;
      assert EncodeText(a + b, codes).value == head + (tail + rest);
      assert head + (tail + rest) == (head + tail) + rest;
    }
  }

  /** The encoding is as long as the code lengths of the text's characters added up. */
  lemma {:induction false} EncodeLength(text: string, codes: map<char, seq<Bit>>)
    requires EncodeText(text, codes).Ok?
    ensures |EncodeText(text, codes).value| == SumOver(text, CodeLengths(codes))
  {
    if text != [] {
      var prefix, c := text[..|text| - 1], text[|text| - 1];
      assert text == prefix + [c];
      assert EncodeText([c], codes) == Ok(codes[c] + []);
      EncodeAppend(prefix, [c], codes);
      EncodeLength(prefix, codes);
    }
  }

  /** The encoding is exactly as long as the sum, over the characters of the frequency table,
      of count times code length. */
  lemma EncodeCost(text: string, codes: map<char, seq<Bit>>)
    requires forall i | 0 <= i < |text| :: text[i] in codes
    ensures EncodeText(text, codes).Ok?
    ensures |EncodeText(text, codes).value| == Cost(Tally(text), codes)
  {
    EncodeLength(text, codes);
    TallyWeighted(text, CodeLengths(codes));
  }
}
