/** The 2-bit encoder of `src/encoder/mod.rs`: each UTF-8 byte becomes four table symbols. */
module Encoder {
  import opened Utf8
  import opened Alphabet

  /**
   * `(byte >> 2 * i) & 0b11`: the i-th 2-bit group of a byte, counted from the
   * low end, for the four shifts 0, 2, 4 and 6 that `convert_to_zero_width` uses.
   */
  function Group(b: byte, i: nat): (d: nat)
    requires i < 4
    ensures d < 4
  {
    if i == 0 then b % 4
    else if i == 1 then b / 4 % 4
    else if i == 2 then b / 16 % 4
    else b / 64 % 4
  }

  /**
   * The match arms `0..=3 => encode_table[bit]`. The `_ => panic!` arm cannot
   * be taken: every caller passes a `Group`, which is below 4.
   */
  function Symbol(t: seq<char>, d: nat): (c: char)
    requires |t| == 4 && d < 4
    ensures c in t
  {
    t[d]
  }

  /**
   * `convert_to_zero_width`: the symbols of groups 0..3, reversed by `.rev()`,
   * so the most significant group comes first.
   */
  function ConvertToZeroWidth(b: byte, t: seq<char>): (r: string)
    requires |t| == 4
    ensures |r| == 4 && IsSymbolString(r, t)
  {
    [Symbol(t, Group(b, 3)), Symbol(t, Group(b, 2)), Symbol(t, Group(b, 1)), Symbol(t, Group(b, 0))]
  }

  /** The per-byte outputs concatenated in byte order. */
  function EncodeBytes(bytes: seq<byte>, t: seq<char>): (r: string)
    requires |t| == 4
    ensures |r| == 4 * |bytes|
  {
    if bytes == [] then [] else ConvertToZeroWidth(bytes[0], t) + EncodeBytes(bytes[1..], t)
  }

  /** `encode`: the symbols of the input's UTF-8 bytes. Total: it never fails. */
  function Encode(s: string, t: seq<char>): (r: string)
    requires |t| == 4
    ensures |r| == 4 * |Utf8.Encode(s)|
    ensures IsSymbolString(r, t)
    ensures r == [] <==> s == []
  {
    EncodeBytesSymbols(Utf8.Encode(s), t);
    EncodeBytes(Utf8.Encode(s), t)
  }

  /** Every output character is one of the four table entries. */
  lemma {:induction false} EncodeBytesSymbols(bytes: seq<byte>, t: seq<char>)
    requires |t| == 4
    ensures IsSymbolString(EncodeBytes(bytes, t), t)
    decreases |bytes|
  {
    if bytes != [] {
      EncodeBytesSymbols(bytes[1..], t);
    }
  }

  /** Byte k of the input owns output symbols 4k..4k+3. */
  lemma {:induction false} EncodeBytesGroups(bytes: seq<byte>, t: seq<char>, k: nat)
    requires |t| == 4 && k < |bytes|
    ensures EncodeBytes(bytes, t)[4 * k..4 * k + 4] == ConvertToZeroWidth(bytes[k], t)
    decreases k
  {
    if k > 0 {
      EncodeBytesGroups(bytes[1..], t, k - 1);
      var head := ConvertToZeroWidth(bytes[0], t);
      var tail := EncodeBytes(bytes[1..], t);
      assert EncodeBytes(bytes, t)[4 * k..4 * k + 4] == tail[4 * (k - 1)..4 * (k - 1) + 4];
    }
  }

  /** Encoding distributes over concatenation of byte sequences. */
  lemma {:induction false} EncodeBytesAppend(a: seq<byte>, b: seq<byte>, t: seq<char>)
    requires |t| == 4
    ensures EncodeBytes(a + b, t) == EncodeBytes(a, t) + EncodeBytes(b, t)
    decreases |a|
  {
    if a == [] {
      assert a + b == b;
    } else {
      assert (a + b)[1..] == a[1..] + b;
      EncodeBytesAppend(a[1..], b, t);
    }
  }

  /** The fixtures of `test_convert_to_zero_width`: 0, 4, 170 and 255. */
  lemma ConvertToZeroWidthFixtures(t: seq<char>)
    requires |t| == 4
    ensures ConvertToZeroWidth(0, t) == [t[0], t[0], t[0], t[0]]
    ensures ConvertToZeroWidth(4, t) == [t[0], t[0], t[1], t[0]]
    ensures ConvertToZeroWidth(170, t) == [t[2], t[2], t[2], t[2]]
    ensures ConvertToZeroWidth(255, t) == [t[3], t[3], t[3], t[3]]
  {
  }

  /** The four symbols of one byte, most significant group first. */
  lemma ConvertToZeroWidthDigits(b: byte, t: seq<char>)
    requires |t| == 4
    ensures ConvertToZeroWidth(b, t) == [t[b / 64], t[b / 16 % 4], t[b / 4 % 4], t[b % 4]]
  {
  }

  /** Read most significant digit first, the four base-4 digits make up the byte. */
  lemma DigitsRecompose(b: byte)
    ensures 64 * (b / 64) + 16 * (b / 16 % 4) + 4 * (b / 4 % 4) + b % 4 == b
  {
    var q1 := b / 4;
    var q2 := q1 / 4;
    assert b / 16 == q2;
    assert b / 64 == q2 / 4;
  }

  /** Symbol i of an encoding is group 3 - i % 4 of byte i / 4. */
  lemma EncodeBytesAt(bytes: seq<byte>, t: seq<char>, i: nat)
    requires |t| == 4 && i < 4 * |bytes|
    ensures var b := bytes[i / 4];
      EncodeBytes(bytes, t)[i] == t[[b / 64, b / 16 % 4, b / 4 % 4, b % 4][i % 4]]
  {
    var k, j, e, b := i / 4, i % 4, EncodeBytes(bytes, t), bytes[i / 4];
    assert i == 4 * k + j && j < 4;
    var g := e[4 * k..4 * k + 4];
    assert g == [t[b / 64], t[b / 16 % 4], t[b / 4 % 4], t[b % 4]] by {
      EncodeBytesGroups(bytes, t, k);
      ConvertToZeroWidthDigits(b, t);
    }
    assert e[i] == g[j];
  }

  /** Encoding distributes over concatenation of texts. */
  lemma EncodeAppend(s: string, u: string, t: seq<char>)
    requires |t| == 4
    ensures Encode(s + u, t) == Encode(s, t) + Encode(u, t)
  {
    Utf8.EncodeAppend(s, u);
    EncodeBytesAppend(Utf8.Encode(s), Utf8.Encode(u), t);
  }

  /** An ASCII character is one byte, so it encodes to that byte's four symbols. */
  lemma EncodeAsciiChar(c: char, t: seq<char>)
    requires |t| == 4 && c as int < 0x80
    ensures Encode([c], t) == ConvertToZeroWidth(c as int, t)
  {
    assert Utf8.Encode([c]) == [c as int];
  }

  /** Appending an ASCII character appends its four symbols. */
  lemma EncodeSnoc(s: string, k: nat, t: seq<char>)
    requires |t| == 4 && k < |s| && s[k] as int < 0x80
    ensures Encode(s[..k + 1], t) == Encode(s[..k], t) + ConvertToZeroWidth(s[k] as int, t)
  {
    assert s[..k + 1] == s[..k] + [s[k]];
    EncodeAppend(s[..k], [s[k]], t);
    EncodeAsciiChar(s[k], t);
  }

  /** Appending four ASCII characters appends their symbols in order. */
  lemma EncodeSnocFour(s: string, k: nat, t: seq<char>)
    requires |t| == 4 && k + 4 <= |s| && IsAscii(s)
    ensures Encode(s[..k + 4], t) == Encode(s[..k], t) +
      ConvertToZeroWidth(s[k] as int, t) + ConvertToZeroWidth(s[k + 1] as int, t) +
      ConvertToZeroWidth(s[k + 2] as int, t) + ConvertToZeroWidth(s[k + 3] as int, t)
  {
    EncodeSnoc(s, k, t);
    EncodeSnoc(s, k + 1, t);
    EncodeSnoc(s, k + 2, t);
    EncodeSnoc(s, k + 3, t);
  }

  /** A twelve-character ASCII text encodes byte by byte. */
  lemma EncodeTwelve(s: string, t: seq<char>)
    requires |t| == 4 && |s| == 12 && IsAscii(s)
    ensures Encode(s, t) ==
      ConvertToZeroWidth(s[0] as int, t) +
      ConvertToZeroWidth(s[1] as int, t) +
      ConvertToZeroWidth(s[2] as int, t) +
      ConvertToZeroWidth(s[3] as int, t) +
      ConvertToZeroWidth(s[4] as int, t) +
      ConvertToZeroWidth(s[5] as int, t) +
      ConvertToZeroWidth(s[6] as int, t) +
      ConvertToZeroWidth(s[7] as int, t) +
      ConvertToZeroWidth(s[8] as int, t) +
      ConvertToZeroWidth(s[9] as int, t) +
      ConvertToZeroWidth(s[10] as int, t) +
      ConvertToZeroWidth(s[11] as int, t)
  {
    assert s[..0] == [];
    EncodeSnoc(s, 0, t);
    assert Encode(s[..1], t) == ConvertToZeroWidth(s[0] as int, t);
    EncodeSnoc(s, 1, t);
    EncodeSnoc(s, 2, t);
    EncodeSnoc(s, 3, t);
    EncodeSnocFour(s, 4, t);
    EncodeSnocFour(s, 8, t);
    assert s[..12] == s;
  }

  /** The symbols of bytes 0 to 3 of the fixture text, for any table. */
  lemma HelloSymbols0(t: seq<char>)
    requires |t| == 4
    ensures ConvertToZeroWidth(HelloText[0] as int, t) == [t[1], t[0], t[2], t[0]]
    ensures ConvertToZeroWidth(HelloText[1] as int, t) == [t[1], t[2], t[1], t[1]]
    ensures ConvertToZeroWidth(HelloText[2] as int, t) == [t[1], t[2], t[3], t[0]]
    ensures ConvertToZeroWidth(HelloText[3] as int, t) == [t[1], t[2], t[3], t[0]]
  {
    ConvertToZeroWidthDigits(HelloText[0] as int, t);
    ConvertToZeroWidthDigits(HelloText[1] as int, t);
    ConvertToZeroWidthDigits(HelloText[2] as int, t);
    ConvertToZeroWidthDigits(HelloText[3] as int, t);
  }

  /** The symbols of bytes 4 to 7 of the fixture text, for any table. */
  lemma HelloSymbols4(t: seq<char>)
    requires |t| == 4
    ensures ConvertToZeroWidth(HelloText[4] as int, t) == [t[1], t[2], t[3], t[3]]
    ensures ConvertToZeroWidth(HelloText[5] as int, t) == [t[0], t[2], t[0], t[0]]
    ensures ConvertToZeroWidth(HelloText[6] as int, t) == [t[1], t[1], t[1], t[3]]
    ensures ConvertToZeroWidth(HelloText[7] as int, t) == [t[1], t[2], t[3], t[3]]
  {
    ConvertToZeroWidthDigits(HelloText[4] as int, t);
    ConvertToZeroWidthDigits(HelloText[5] as int, t);
    ConvertToZeroWidthDigits(HelloText[6] as int, t);
    ConvertToZeroWidthDigits(HelloText[7] as int, t);
  }

  /** The symbols of bytes 8 to 11 of the fixture text, for any table. */
  lemma HelloSymbols8(t: seq<char>)
    requires |t| == 4
    ensures ConvertToZeroWidth(HelloText[8] as int, t) == [t[1], t[3], t[0], t[2]]
    ensures ConvertToZeroWidth(HelloText[9] as int, t) == [t[1], t[2], t[3], t[0]]
    ensures ConvertToZeroWidth(HelloText[10] as int, t) == [t[1], t[2], t[1], t[0]]
    ensures ConvertToZeroWidth(HelloText[11] as int, t) == [t[0], t[2], t[0], t[1]]
  {
    ConvertToZeroWidthDigits(HelloText[8] as int, t);
    ConvertToZeroWidthDigits(HelloText[9] as int, t);
    ConvertToZeroWidthDigits(HelloText[10] as int, t);
    ConvertToZeroWidthDigits(HelloText[11] as int, t);
  }

  /** The symbols of the fixture text, for any table. */
  lemma EncodeHello(t: seq<char>)
    requires |t| == 4
    ensures Encode(HelloText, t) ==
      [t[1], t[0], t[2], t[0]] +
      [t[1], t[2], t[1], t[1]] +
      [t[1], t[2], t[3], t[0]] +
      [t[1], t[2], t[3], t[0]] +
      [t[1], t[2], t[3], t[3]] +
      [t[0], t[2], t[0], t[0]] +
      [t[1], t[1], t[1], t[3]] +
      [t[1], t[2], t[3], t[3]] +
      [t[1], t[3], t[0], t[2]] +
      [t[1], t[2], t[3], t[0]] +
      [t[1], t[2], t[1], t[0]] +
      [t[0], t[2], t[0], t[1]]
  {
    HelloTextAscii();
    EncodeTwelve(HelloText, t);
    HelloSymbols0(t);
    HelloSymbols4(t);
    HelloSymbols8(t);
  }

  /** `test_encode`: "Hello World!" under the encoder's table; one line per input byte. */
  const HelloZeroWidth: string :=
    "\U{200D}\U{200C}\U{2060}\U{200C}" +
    "\U{200D}\U{2060}\U{200D}\U{200D}" +
    "\U{200D}\U{2060}\U{2062}\U{200C}" +
    "\U{200D}\U{2060}\U{2062}\U{200C}" +
    "\U{200D}\U{2060}\U{2062}\U{2062}" +
    "\U{200C}\U{2060}\U{200C}\U{200C}" +
    "\U{200D}\U{200D}\U{200D}\U{2062}" +
    "\U{200D}\U{2060}\U{2062}\U{2062}" +
    "\U{200D}\U{2062}\U{200C}\U{2060}" +
    "\U{200D}\U{2060}\U{2062}\U{200C}" +
    "\U{200D}\U{2060}\U{200D}\U{200C}" +
    "\U{200C}\U{2060}\U{200C}\U{200D}"

  /** `test_encode` holds. */
  lemma EncodeHelloFixture()
    ensures Encode(HelloText, ZeroWidthTable) == HelloZeroWidth
  {
    EncodeHello(ZeroWidthTable);
  }
}
