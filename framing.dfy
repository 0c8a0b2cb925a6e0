/** The encoded file: `encode_to_file` and `decode_from_file` with the file replaced by the
    sequence of bytes it holds. The file is one header byte giving the number of padding bits,
    then the code bits followed by that many zero bits, packed eight to a byte, most
    significant bit first. */
module Framing {
  import opened HuffmanTypes
  import opened Encoding
  import opened Decoding

  function Pow2(n: nat): nat {
    if n == 0 then 1 else 2 * Pow2(n - 1)
  }

  /** A byte has eight bits. */
  lemma Pow2Byte()
    ensures Pow2(8) == 256
  {
    assert Pow2(4) == 16;
  }

  /** `int(bits, 2)`: the value of a bit string read most significant bit first. */
  function BitsValue(s: seq<Bit>): (v: nat)
    ensures v < Pow2(|s|)
  {
    if s == [] then 0 else 2 * BitsValue(s[..|s| - 1]) + s[|s| - 1]
  }

  /** `f'{n:0<width>b}'` for a number that fits: `n` in binary, `width` digits, most
      significant first. */
  function ToBits(n: nat, width: nat): (s: seq<Bit>)
    ensures |s| == width
  {
    if width == 0 then [] else ToBits(n / 2, width - 1) + [n % 2]
  }

  /** Writing a number that fits in `width` bits and reading it back gives the number. */
  lemma {:induction false} ValueOfBits(n: nat, width: nat)
    requires n < Pow2(width)
    ensures BitsValue(ToBits(n, width)) == n
  {
    if width > 0 {
      var s, high := ToBits(n, width), ToBits(n / 2, width - 1);
      assert s[..width - 1] == high && s[width - 1] == n % 2;
      ValueOfBits(n / 2, width - 1);
      assert BitsValue(s) == 2 * BitsValue(high) + n % 2;
    }
  }

  /** Reading a bit string and writing its value in as many bits gives the bit string. */
  lemma {:induction false} BitsOfValue(s: seq<Bit>)
    ensures ToBits(BitsValue(s), |s|) == s
  {
    if s != [] {
      var init := s[..|s| - 1];
      var v := BitsValue(init);
      assert (2 * v + s[|s| - 1]) / 2 == v && (2 * v + s[|s| - 1]) % 2 == s[|s| - 1];
      BitsOfValue(init);
      assert s == init + [s[|s| - 1]];
    }
  }

  /** `8 - len(encoded_text) % 8`: always between 1 and 8, a whole byte when the length is
      already a multiple of 8, and it brings the length up to a multiple of 8. */
  function Padding(n: nat): (p: nat)
    ensures 1 <= p <= 8
    ensures (n + p) % 8 == 0
    ensures p == 8 <==> n % 8 == 0
  {
    8 - n % 8
  }

  function Zeros(k: nat): (z: seq<Bit>)
    ensures |z| == k && forall i | 0 <= i < k :: z[i] == 0
  {
    seq(k, _ => 0)
  }

  /** The bit string `encode_to_file` builds and returns: the padding count as 8 bits, then the
      code bits, then the padding zeros. */
  function Frame(bits: seq<Bit>): (framed: seq<Bit>)
    ensures |framed| % 8 == 0
  {
    var padding := Padding(|bits|);
    ToBits(padding, 8) + (bits + Zeros(padding))
  }

  /** The frame begins with eight bits whose value is the padding count, continues with the
      code bits unchanged and ends with exactly that many zero bits. */
  lemma FrameLayout(bits: seq<Bit>)
    ensures var framed, padding := Frame(bits), Padding(|bits|);
      && |framed| == 8 + |bits| + padding
      && BitsValue(framed[..8]) == padding
      && framed[8..8 + |bits|] == bits
      && forall i | 8 + |bits| <= i < |framed| :: framed[i] == 0
  {
    var padding := Padding(|bits|);
    Pow2Byte();
    ValueOfBits(padding, 8);
    assert Frame(bits)[..8] == ToBits(padding, 8);
  }

  /** `int(byte, 2)` for a group of eight bits: a number that fits in a byte. */
  function ByteValue(s: seq<Bit>): Byte
    requires |s| == 8
  {
    Pow2Byte();
    BitsValue(s)
  }

  /** The bytes written to the file: each group of eight bits as one number. */
  function PackSpec(bits: seq<Bit>): (bytes: seq<Byte>)
    requires |bits| % 8 == 0
    ensures |bytes| * 8 == |bits|
  {
    if bits == [] then []
    else
      PackSpec(bits[..|bits| - 8]) + [ByteValue(bits[|bits| - 8..])]
  }

  /** The bits read back from the file: each byte as eight bits. */
  function UnpackSpec(bytes: seq<Byte>): (bits: seq<Bit>)
    ensures |bits| == 8 * |bytes|
  {
    if bytes == [] then [] else UnpackSpec(bytes[..|bytes| - 1]) + ToBits(bytes[|bytes| - 1], 8)
  }

  /** Unpacking packed bits gives the bits back. */
  lemma {:induction false} UnpackPack(bits: seq<Bit>)
    requires |bits| % 8 == 0
    ensures UnpackSpec(PackSpec(bits)) == bits
  {
    if bits != [] {
      WholeBytesStep(|bits|);
      var init, last := bits[..|bits| - 8], bits[|bits| - 8..];
      PackLast(bits);
      UnpackLast(PackSpec(init), ByteValue(last));
      ByteBits(last);
      UnpackPack(init);
      assert bits == init + last;
    }
  }

  /** A non-empty whole number of bytes has a last byte, and the rest is whole bytes. */
  lemma WholeBytesStep(n: nat)
    requires n % 8 == 0 && n > 0
    ensures n >= 8 && (n - 8) % 8 == 0
  {
  }

  lemma PackLast(bits: seq<Bit>)
    requires |bits| % 8 == 0 && |bits| >= 8
    ensures PackSpec(bits) == PackSpec(bits[..|bits| - 8]) + [ByteValue(bits[|bits| - 8..])]
  {
  }

  lemma UnpackLast(bytes: seq<Byte>, b: Byte)
    ensures UnpackSpec(bytes + [b]) == UnpackSpec(bytes) + ToBits(b, 8)
  {
    assert (bytes + [b])[..|bytes|] == bytes;
  }

  lemma ByteBits(s: seq<Bit>)
    requires |s| == 8
    ensures ToBits(ByteValue(s), 8) == s
  {
    BitsOfValue(s);
  }

  /** Packing unpacked bytes gives the bytes back. */
  lemma {:induction false} PackUnpack(bytes: seq<Byte>)
    ensures PackSpec(UnpackSpec(bytes)) == bytes
  {
    if bytes != [] {
      var init, last := bytes[..|bytes| - 1], bytes[|bytes| - 1];
      var bits := UnpackSpec(bytes);
      assert bits[..|bits| - 8] == UnpackSpec(init);
      assert bits[|bits| - 8..] == ToBits(last, 8);
      PackUnpack(init);
      Pow2Byte();
      ValueOfBits(last, 8);
      assert bytes == init + [last];
    }
  }

  /** Packing is byte by byte: packing two whole-byte strings one after the other gives their
      packings one after the other. */
  lemma {:induction false} PackAppend(a: seq<Bit>, b: seq<Bit>)
    requires |a| % 8 == 0 && |b| % 8 == 0
    ensures PackSpec(a + b) == PackSpec(a) + PackSpec(b)
  {
    if b == [] {
      assert a + b == a;
    } else {
      WholeBytesStep(|b|);
      var ab, init, last := a + b, b[..|b| - 8], b[|b| - 8..];
      assert ab[..|ab| - 8] == a + init && ab[|ab| - 8..] == last;
      PackLast(ab);
      PackLast(b);
      PackAppend(a, init);
      assert PackSpec(a) + PackSpec(init) + [ByteValue(last)] == PackSpec(a) + PackSpec(b);
    }
  }

  /** `encoded_text[:-padding]`: everything but the last `padding` bits. As with a Python
      slice, a count of 0 or one reaching past the start leaves nothing. */
  function StripPadding(bits: seq<Bit>, padding: nat): (r: seq<Bit>)
    ensures |r| == (if padding == 0 || padding >= |bits| then 0 else |bits| - padding)
    ensures r == bits[..|r|]
  {
    if padding == 0 || padding >= |bits| then [] else bits[..|bits| - padding]
  }

  /** `int.from_bytes(encoded_file.read(1), byteorder='big')`: the first byte, 0 for an empty
      file. Followed by the rest of the file it gives the file back. */
  function Header(bytes: seq<Byte>): (h: Byte)
    ensures bytes == [] ==> h == 0
    ensures bytes != [] ==> [h] + Body(bytes) == bytes
  {
    if bytes == [] then 0 else bytes[0]
  }

  /** The bytes after the header: one fewer than the file holds, none for an empty file. */
  function Body(bytes: seq<Byte>): (r: seq<Byte>)
    ensures |r| == if bytes == [] then 0 else |bytes| - 1
    ensures r == bytes[|bytes| - |r|..]
  {
    if bytes == [] then [] else bytes[1..]
  }

  /** The code bits `decode_from_file` recovers from a file before decoding them: the bits of
      every byte after the header, less as many trailing bits as the header says (none left if
      it says 0 or at least all of them). */
  function Payload(bytes: seq<Byte>): (r: seq<Bit>)
    ensures var n, p := 8 * |Body(bytes)|, Header(bytes);
      |r| == (if p == 0 || p >= n then 0 else n - p)
    ensures r == UnpackSpec(Body(bytes))[..|r|]
  {
    StripPadding(UnpackSpec(Body(bytes)), Header(bytes))
  }

  /** Eight bits holding a byte value pack into that one byte. */
  lemma PackHeader(b: Byte)
    ensures PackSpec(ToBits(b, 8)) == [b]
  {
    var header := ToBits(b, 8);
    assert header[..0] == [] && header[0..] == header;
    Pow2Byte();
    ValueOfBits(b, 8);
  }

  /** The file holds the padding count as its first byte, then the padded code bits packed,
      one byte per eight bits. */
  lemma FrameBytes(bits: seq<Bit>)
    ensures var padding := Padding(|bits|);
      PackSpec(Frame(bits)) == [padding] + PackSpec(bits + Zeros(padding))
    ensures 8 * |PackSpec(Frame(bits))| == 8 + |bits| + Padding(|bits|)
  {
    var padding := Padding(|bits|);
    PackAppend(ToBits(padding, 8), bits + Zeros(padding));
    PackHeader(padding);
  }

  /** Reading the file back recovers exactly the code bits that were written. */
  lemma FrameRoundTrip(bits: seq<Bit>)
    ensures Payload(PackSpec(Frame(bits))) == bits
  {
    var padding := Padding(|bits|);
    var padded := bits + Zeros(padding);
    var bytes := PackSpec(Frame(bits));
    FrameBytes(bits);
    assert Header(bytes) == padding && Body(bytes) == PackSpec(padded) by {
      assert bytes[0] == padding && bytes[1..] == PackSpec(padded);
    }
    assert |padded| % 8 == 0;
    UnpackPack(padded);
    assert Payload(bytes) == StripPadding(padded, padding);
    assert padded[..|padded| - padding] == bits;
  }

  /** The packing loop of `encode_to_file`: `bytes([int(byte, 2)])` for every group of eight bits. */
  method Pack(bits: seq<Bit>) returns (bytes: seq<Byte>)
    requires |bits| % 8 == 0
    ensures bytes == PackSpec(bits)
  {
    bytes := [];
    var i := 0;
    while i < |bits|
      invariant 0 <= i <= |bits| && i % 8 == 0
      invariant bytes == PackSpec(bits[..i])
    {
      var chunk := bits[i..i + 8];
      bytes := bytes + [ByteValue(chunk)];
      assert bits[..i + 8][..i] == bits[..i] && bits[..i + 8][i..] == chunk;
      i := i + 8;
    }
    assert bits[..i] == bits;
  }

  /** The reading loop of `decode_from_file`: each byte appended as `f'{byte:08b}'`. */
  method Unpack(bytes: seq<Byte>) returns (bits: seq<Bit>)
    ensures bits == UnpackSpec(bytes)
  {
    bits := [];
    var i := 0;
    while i < |bytes|
      invariant 0 <= i <= |bytes|
      invariant bits == UnpackSpec(bytes[..i])
    {
      bits := bits + ToBits(bytes[i], 8);
      assert bytes[..i + 1][..i] == bytes[..i];
      i := i + 1;
    }
    assert bytes[..i] == bytes;
  }

  /** `encode_to_file` without the file: the framed bit string it returns and the bytes it
      writes. A character without a code fails before anything is written. */
  method EncodeToFile(text: string, codes: map<char, seq<Bit>>) returns (r: Result<(seq<Bit>, seq<Byte>)>)
    ensures r.Ok? <==> forall i | 0 <= i < |text| :: text[i] in codes
    ensures r.Err? ==> r.error == EncodeText(text, codes).error
    ensures r.Ok? ==> r.value.0 == Frame(EncodeText(text, codes).value)
    ensures r.Ok? ==> r.value.1 == PackSpec(r.value.0)
  {
    var encoded := EncodeText(text, codes);
    if encoded.Err? {
      return Err(encoded.error);
    }
    var bits := encoded.value;
    var padding := Padding(|bits|);
    bits := bits + Zeros(padding);
    var framed := ToBits(padding, 8) + bits;
    assert framed == Frame(encoded.value);
    var bytes := Pack(framed);
    r := Ok((framed, bytes));
  }

  /** `decode_from_file` without the file: read the header, unpack the rest, drop the padding
      and decode what remains with the tree. */
  method DecodeFromFile(bytes: seq<Byte>, tree: Tree) returns (r: Result<string>)
    ensures r == Decode(tree, Payload(bytes))
  {
    var padding := if bytes == [] then 0 else bytes[0];
    var rest := if bytes == [] then [] else bytes[1..];
    var bits := Unpack(rest);
    bits := StripPadding(bits, padding);
    r := DecodeText(bits, tree);
  }
}
