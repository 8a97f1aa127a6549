/**
 * The 1-bit codec of `src/lib.rs`: every UTF-8 byte becomes eight symbols,
 * ZERO (U+200B) for a 0 bit and ONE (U+200C) for a 1 bit, most significant
 * bit first. Decoding regroups the symbols in eights and reads each byte
 * back as the character with that code (a Latin-1 reading).
 */
module BinaryCodec {
  import opened Wrappers
  import opened Utf8
  import opened Alphabet
  import opened Arith

  /** `ZERO`, the symbol of a 0 bit: ZERO WIDTH SPACE. */
  const Zero: char := '\U{200B}'

  /** `ONE`, the symbol of a 1 bit: ZERO WIDTH NON-JOINER. */
  const One: char := '\U{200C}'

  /** A string of the binary digits '0' and '1'. */
  predicate IsBinary(d: string) {
    forall i :: 0 <= i < |d| ==> d[i] == '0' || d[i] == '1'
  }

  /** A string of the two bit symbols. */
  predicate IsBitString(z: string) {
    forall i :: 0 <= i < |z| ==> z[i] == Zero || z[i] == One
  }

  /** Two to the power k. */
  function Pow2(k: nat): (r: nat)
    ensures r >= 1
  {
    if k == 0 then 1 else 2 * Pow2(k - 1)
  }

  /** The value of a binary digit string, most significant digit first. */
  function BinaryValue(d: string): (v: nat)
    requires IsBinary(d)
    ensures v < Pow2(|d|)
  {
    if d == [] then 0
    else 2 * BinaryValue(d[..|d| - 1]) + (if d[|d| - 1] == '1' then 1 else 0)
  }

  /**
   * The `width`-digit binary representation of `v` (its low `width` bits):
   * the reference that `bytes_to_binary` is measured against.
   */
  function Bits(v: nat, width: nat): (d: string)
    ensures |d| == width && IsBinary(d)
  {
    if width == 0 then [] else Bits(v / 2, width - 1) + [Digit(v)]
  }

  /** The lowest binary digit of `v`. */
  function Digit(v: nat): (c: char)
    ensures c == '0' || c == '1'
  {
    if v % 2 == 0 then '0' else '1'
  }

  /** `format!("{:b}", n)`: the binary digits of `n` without leading zeros, "0" for 0. */
  function FormatBinary(n: nat): (d: string)
    ensures |d| >= 1
  {
    var last := if n % 2 == 0 then "0" else "1";
    if n < 2 then last else FormatBinary(n / 2) + last
  }

  /** `(0..k).map(|_| '0').collect()`: `k` zero digits. */
  function Zeros(k: nat): (z: string)
    ensures |z| == k
  {
    if k == 0 then [] else Zeros(k - 1) + "0"
  }

  /**
   * `bytes_to_binary`: the digits of `format!("{:b}")` padded with zeros on
   * the left to eight. Eight digits always suffice for a byte, so `8 - len`
   * never underflows.
   */
  function BytesToBinary(b: byte): (d: string)
    ensures |d| == 8
  {
    var bin := FormatBinary(b);
    FormatBinaryLength(b, 8);
    Zeros(8 - |bin|) + bin
  }

  /** The symbol of one binary digit. */
  function DigitSymbol(c: char): (z: char)
    requires c == '0' || c == '1'
    ensures z == Zero || z == One
  {
    if c == '0' then Zero else One
  }

  /**
   * `convert_to_zero_width` of `src/lib.rs`: '0' to ZERO and '1' to ONE, digit
   * by digit. The `panic!` arm is excluded by the precondition: the only
   * caller passes the output of `bytes_to_binary`.
   */
  function ConvertToZeroWidth(binary: string): (z: string)
    requires IsBinary(binary)
    ensures |z| == |binary|
    ensures forall i :: 0 <= i < |z| ==> z[i] == DigitSymbol(binary[i])
  {
    if binary == [] then [] else [DigitSymbol(binary[0])] + ConvertToZeroWidth(binary[1..])
  }

  /** The eight symbols of one byte. */
  function EncodeByte(b: byte): (z: string)
    ensures |z| == 8 && IsBitString(z)
  {
    BytesToBinaryValue(b);
    ConvertToZeroWidth(BytesToBinary(b))
  }

  /** The per-byte symbol groups concatenated in byte order. */
  function EncodeBytes(bytes: seq<byte>): (z: string)
    ensures |z| == 8 * |bytes| && IsBitString(z)
  {
    if bytes == [] then [] else EncodeByte(bytes[0]) + EncodeBytes(bytes[1..])
  }

  /** `encode` of `src/lib.rs`: the symbols of the input's UTF-8 bytes. */
  function Encode(s: string): (z: string)
    ensures |z| == 8 * |Utf8.Encode(s)| && IsBitString(z)
  {
    EncodeBytes(Utf8.Encode(s))
  }

  /** The value of one bit symbol. */
  function SymbolBit(c: char): (x: nat)
    requires c == Zero || c == One
    ensures x < 2
  {
    if c == Zero then 0 else 1
  }

  /** `acc << 1 | x` on a `u8`: the top bit of `acc` falls off. */
  function ShiftIn(acc: byte, x: nat): (r: byte)
    requires x < 2
    ensures r == (2 * acc + x) % 256
  {
    (acc % 128) * 2 + x
  }

  /** The `fold` of `convert_from_zero_width`, from accumulator `acc`. */
  function Fold(acc: byte, z: string): (r: byte)
    requires IsBitString(z)
    ensures z == [] ==> r == acc
    ensures z != [] ==> r % 2 == SymbolBit(z[|z| - 1])
    decreases |z|
  {
    if z == [] then acc else Fold(ShiftIn(acc, SymbolBit(z[0])), z[1..])
  }

  /**
   * `convert_from_zero_width` of `src/lib.rs`: the bits folded into a byte
   * from 0. The `panic!` arm is excluded by the precondition.
   */
  function ConvertFromZeroWidth(z: string): (b: byte)
    requires IsBitString(z)
    ensures z == [] ==> b == 0
    ensures z != [] ==> b % 2 == SymbolBit(z[|z| - 1])
  {
    Fold(0, z)
  }

  /**
   * The byte vector of `decode`: one byte per complete group of eight
   * symbols, a trailing 1 to 7 symbols ignored. `decode` does not validate
   * its input; it panics on a foreign character inside a complete group,
   * which the precondition excludes.
   */
  function DecodeBytes(code: string): (r: seq<byte>)
    requires IsBitString(code[..8 * (|code| / 8)])
    ensures |r| == |code| / 8
    ensures forall k :: 0 <= k < |r| ==> r[k] == ConvertFromZeroWidth(code[8 * k..8 * k + 8])
  {
    seq(|code| / 8, k requires 0 <= k < |code| / 8 =>
      assert code[8 * k..8 * k + 8] == code[..8 * (|code| / 8)][8 * k..8 * k + 8];
      ConvertFromZeroWidth(code[8 * k..8 * k + 8]))
  }

  /** `.map(|&b| b as char)`: every byte read as the character with that code. */
  function Latin1(bytes: seq<byte>): (s: string)
    ensures |s| == |bytes|
    ensures forall i :: 0 <= i < |s| ==> s[i] as int == bytes[i]
  {
    seq(|bytes|, i requires 0 <= i < |bytes| => bytes[i] as char)
  }

  /** `decode` of `src/lib.rs`. */
  function Decode(code: string): (s: string)
    requires IsBitString(code[..8 * (|code| / 8)])
    ensures |s| == |code| / 8
  {
    Latin1(DecodeBytes(code))
  }

  /**
   * The intended decoder: the rebuilt bytes read as UTF-8, as the 2-bit
   * decoder does.
   */
  function DecodeUtf8(code: string): (r: Result<string, Utf8Error>)
    requires IsBitString(code[..8 * (|code| / 8)])
    ensures r.Ok? ==> Utf8.Encode(r.value) == DecodeBytes(code)
  {
    Utf8.Decode(DecodeBytes(code))
  }

  // ----- Lemmas -----

  /** `{:b}` writes binary digits, no leading zero, whose value is the number. */
  lemma {:induction false} FormatBinaryValue(n: nat)
    ensures IsBinary(FormatBinary(n)) && BinaryValue(FormatBinary(n)) == n
    ensures n > 0 ==> FormatBinary(n)[0] == '1'
    decreases n
  {
    if n >= 2 {
      FormatBinaryValue(n / 2);
      var d := FormatBinary(n);
      assert d[..|d| - 1] == FormatBinary(n / 2);
    }
  }

  /** Zeros are binary digits of value 0. */
  lemma {:induction false} ZerosValue(k: nat)
    ensures IsBinary(Zeros(k)) && BinaryValue(Zeros(k)) == 0
    decreases k
  {
    if k > 0 {
      ZerosValue(k - 1);
      assert Zeros(k)[..k - 1] == Zeros(k - 1);
    }
  }

  /** `bytes_to_binary(b)` is eight binary digits whose value is `b`. */
  lemma BytesToBinaryValue(b: byte)
    ensures IsBinary(BytesToBinary(b)) && BinaryValue(BytesToBinary(b)) == b
  {
    var bin := FormatBinary(b);
    assert IsBinary(bin) && BinaryValue(bin) == b by {
      FormatBinaryValue(b);
    }
    assert |bin| <= 8 by {
      Pow2Byte();
      FormatBinaryLength(b, 8);
    }
    assert BytesToBinary(b) == Zeros(8 - |bin|) + bin;
    BinaryValuePadded(8 - |bin|, bin);
  }

  /** Eight digits suffice for a byte: the length of `{:b}` is at most k below 2^k. */
  lemma {:induction false} FormatBinaryLength(n: nat, k: nat)
    requires 1 <= k && n < Pow2(k)
    ensures |FormatBinary(n)| <= k
    decreases k
  {
    if n >= 2 {
      assert k >= 2;
      FormatBinaryLength(n / 2, k - 1);
    }
  }

  /** Leading zeros do not change a binary value. */
  lemma {:induction false} BinaryValuePadded(k: nat, d: string)
    requires IsBinary(d)
    ensures IsBinary(Zeros(k) + d) && BinaryValue(Zeros(k) + d) == BinaryValue(d)
    decreases |d|
  {
    var p := Zeros(k) + d;
    ZerosValue(k);
    if d == [] {
      assert p == Zeros(k);
    } else {
      var init := d[..|d| - 1];
      BinaryValuePadded(k, init);
      assert p[..|p| - 1] == Zeros(k) + init;
    }
  }

  /** A binary string is the fixed-width representation of its own value. */
  lemma {:induction false} BinaryUnique(d: string)
    requires IsBinary(d)
    ensures d == Bits(BinaryValue(d), |d|)
    decreases |d|
  {
    if d != [] {
      var init := d[..|d| - 1];
      BinaryUnique(init);
      var v := BinaryValue(d);
      assert v / 2 == BinaryValue(init);
      assert d == init + [d[|d| - 1]];
    }
  }

  /** `bytes_to_binary(b)` is the eight-bit representation of `b`. */
  lemma BytesToBinaryBits(b: byte)
    ensures BytesToBinary(b) == Bits(b, 8)
  {
    BytesToBinaryValue(b);
    BinaryUnique(BytesToBinary(b));
  }

  /** Appending a digit appends its symbol. */
  lemma ConvertToZeroWidthSnoc(d: string, c: char)
    requires IsBinary(d) && (c == '0' || c == '1')
    ensures IsBinary(d + [c])
    ensures ConvertToZeroWidth(d + [c]) == ConvertToZeroWidth(d) + [DigitSymbol(c)]
  {
  }

  /** `convert_to_zero_width` of eight digits, symbol by symbol. */
  lemma {:induction false} ConvertEight(d: string)
    requires IsBinary(d) && |d| == 8
    ensures ConvertToZeroWidth(d) ==
      [DigitSymbol(d[0]), DigitSymbol(d[1]), DigitSymbol(d[2]), DigitSymbol(d[3]),
       DigitSymbol(d[4]), DigitSymbol(d[5]), DigitSymbol(d[6]), DigitSymbol(d[7])]
  {
  }

  /** Digit i of a fixed-width representation is bit w - 1 - i of the value. */
  lemma {:induction false} BitsIndex(v: nat, w: nat, i: nat)
    requires i < w
    ensures Bits(v, w)[i] == Digit(v / Pow2(w - 1 - i))
    decreases w
  {
    if i < w - 1 {
      BitsIndex(v / 2, w - 1, i);
      DivHalf(v, Pow2(w - 2 - i));
    }
  }

  /** The eight digits of a byte, most significant first. */
  lemma {:induction false} BitsEight(b: byte)
    ensures Bits(b, 8) ==
      [Digit(b / 128), Digit(b / 64), Digit(b / 32), Digit(b / 16),
       Digit(b / 8), Digit(b / 4), Digit(b / 2), Digit(b)]
  {
    Pow2Byte();
    BitsIndex(b, 8, 0);
    BitsIndex(b, 8, 1);
    BitsIndex(b, 8, 2);
    BitsIndex(b, 8, 3);
    BitsIndex(b, 8, 4);
    BitsIndex(b, 8, 5);
    BitsIndex(b, 8, 6);
    BitsIndex(b, 8, 7);
  }

  /** The powers of two up to a byte's range. */
  lemma Pow2Byte()
    ensures Pow2(0) == 1 && Pow2(1) == 2 && Pow2(2) == 4 && Pow2(3) == 8
    ensures Pow2(4) == 16 && Pow2(5) == 32 && Pow2(6) == 64 && Pow2(7) == 128
    ensures Pow2(8) == 256
  {
    assert Pow2(8) == 256;
  }

  /** Halving and then dividing by m is dividing by 2m. */
  lemma DivHalf(v: nat, m: nat)
    requires m >= 1
    ensures (v / 2) / m == v / (2 * m)
  {
    var q := v / 2;
    var a := q / m;
    var c := q % m;
    assert q == m * a + c;
    assert v == 2 * (m * a) + (2 * c + v % 2);
    assert 2 * (m * a) == (2 * m) * a;
    DivUnique(v, 2 * m, a, 2 * c + v % 2);
  }

  /** The eight symbols of a byte are those of its eight-bit representation. */
  lemma EncodeByteBits(b: byte)
    ensures EncodeByte(b) == ConvertToZeroWidth(Bits(b, 8))
  {
    BytesToBinaryBits(b);
  }

  /** The eight symbols of a byte, bit by bit from the most significant. */
  lemma {:induction false} EncodeByteDigits(b: byte)
    ensures EncodeByte(b) ==
      [DigitSymbol(Digit(b / 128)), DigitSymbol(Digit(b / 64)), DigitSymbol(Digit(b / 32)),
       DigitSymbol(Digit(b / 16)), DigitSymbol(Digit(b / 8)), DigitSymbol(Digit(b / 4)),
       DigitSymbol(Digit(b / 2)), DigitSymbol(Digit(b))]
  {
    EncodeByteBits(b);
    BitsEight(b);
    ConvertEight(Bits(b, 8));
  }

  /** Eight symbols that spell a byte's bits, most significant first, are its encoding. */
  lemma EncodeByteSpelled(b: byte, z: string)
    requires |z| == 8
    requires z[0] == DigitSymbol(Digit(b / 128)) && z[1] == DigitSymbol(Digit(b / 64))
    requires z[2] == DigitSymbol(Digit(b / 32)) && z[3] == DigitSymbol(Digit(b / 16))
    requires z[4] == DigitSymbol(Digit(b / 8)) && z[5] == DigitSymbol(Digit(b / 4))
    requires z[6] == DigitSymbol(Digit(b / 2)) && z[7] == DigitSymbol(Digit(b))
    ensures EncodeByte(b) == z
  {
    EncodeByteDigits(b);
  }

  /** Folding the eight bit symbols of a byte, most significant first, gives the byte. */
  lemma {:induction false} ConvertFromDigits(b: byte)
    ensures var z :=
      [DigitSymbol(Digit(b / 128)), DigitSymbol(Digit(b / 64)), DigitSymbol(Digit(b / 32)),
       DigitSymbol(Digit(b / 16)), DigitSymbol(Digit(b / 8)), DigitSymbol(Digit(b / 4)),
       DigitSymbol(Digit(b / 2)), DigitSymbol(Digit(b))];
      IsBitString(z) && ConvertFromZeroWidth(z) == b
  {
    EncodeByteDigits(b);
    EncodeByteRoundTrip(b);
  }

  /** Folding one more symbol shifts it in after the others. */
  lemma {:induction false} FoldSnoc(acc: byte, z: string, c: char)
    requires IsBitString(z) && (c == Zero || c == One)
    ensures IsBitString(z + [c])
    ensures Fold(acc, z + [c]) == ShiftIn(Fold(acc, z), SymbolBit(c))
    decreases |z|
  {
    var zc := z + [c];
    if z == [] {
      assert zc[1..] == [];
    } else {
      assert zc[1..] == z[1..] + [c];
      FoldSnoc(ShiftIn(acc, SymbolBit(z[0])), z[1..], c);
    }
  }

  /** Converting digits to symbols and folding them yields the digits' value, cut to a byte. */
  lemma {:induction false} FoldBinary(d: string)
    requires IsBinary(d)
    ensures ConvertFromZeroWidth(ConvertToZeroWidth(d)) == BinaryValue(d) % 256
    decreases |d|
  {
    if d != [] {
      var init, c := d[..|d| - 1], d[|d| - 1];
      var z, x := ConvertToZeroWidth(init), SymbolBit(DigitSymbol(c));
      var v, f := BinaryValue(init), Fold(0, z);
      assert f == v % 256 by {
        FoldBinary(init);
      }
      assert ConvertFromZeroWidth(ConvertToZeroWidth(d)) == ShiftIn(f, x) by {
        assert d == init + [c];
        ConvertToZeroWidthSnoc(init, c);
        FoldSnoc(0, z, DigitSymbol(c));
      }
      assert BinaryValue(d) == 2 * v + x by {
        BinaryValueSnoc(d);
      }
      ShiftMod(v, x);
    }
  }

  /** The last digit of a binary string is its lowest bit. */
  lemma BinaryValueSnoc(d: string)
    requires IsBinary(d) && d != []
    ensures BinaryValue(d) == 2 * BinaryValue(d[..|d| - 1]) + SymbolBit(DigitSymbol(d[|d| - 1]))
  {
  }

  /** Cutting to a byte before or after a shift gives the same byte. */
  lemma ShiftMod(x: nat, y: nat)
    ensures (2 * (x % 256) + y) % 256 == (2 * x + y) % 256
  {
    var v := 2 * (x % 256) + y;
    var k, m := v / 256, v % 256;
    assert v == 256 * k + m;
    assert 2 * x + y == 256 * (2 * (x / 256) + k) + m;
    DivUnique(2 * x + y, 256, 2 * (x / 256) + k, m);
  }

  /** Decoding the eight symbols of a byte gives the byte back. */
  lemma EncodeByteRoundTrip(b: byte)
    ensures ConvertFromZeroWidth(EncodeByte(b)) == b
  {
    var d := BytesToBinary(b);
    assert IsBinary(d) && BinaryValue(d) == b by {
      BytesToBinaryValue(b);
    }
    var z := ConvertToZeroWidth(d);
    assert EncodeByte(b) == z;
    assert ConvertFromZeroWidth(z) == BinaryValue(d) % 256 by {
      FoldBinary(d);
    }
    assert BinaryValue(d) % 256 == b by {
      DivUnique(b, 256, 0, b);
    }
  }

  /** Byte k of the input owns output symbols 8k..8k+7. */
  lemma {:induction false} EncodeBytesGroups(bytes: seq<byte>, k: nat)
    requires k < |bytes|
    ensures EncodeBytes(bytes)[8 * k..8 * k + 8] == EncodeByte(bytes[k])
    decreases k
  {
    if k > 0 {
      var head, tail := EncodeByte(bytes[0]), EncodeBytes(bytes[1..]);
      assert EncodeBytes(bytes) == head + tail;
      assert tail[8 * (k - 1)..8 * (k - 1) + 8] == EncodeByte(bytes[k]) by {
        EncodeBytesGroups(bytes[1..], k - 1);
        assert bytes[1..][k - 1] == bytes[k];
      }
      BlockAfterHead(head, tail, k);
    }
  }

  /** Past an eight-symbol head, block k of a string is block k - 1 of the rest. */
  lemma BlockAfterHead(head: string, tail: string, k: nat)
    requires |head| == 8 && 1 <= k && 8 * k <= |tail|
    ensures (head + tail)[8 * k..8 * k + 8] == tail[8 * (k - 1)..8 * (k - 1) + 8]
  {
  }

  /** Rebuilding the bytes of an encoding gives the original bytes. */
  lemma DecodeBytesEncodeBytes(bytes: seq<byte>)
    ensures var z := EncodeBytes(bytes);
      IsBitString(z[..8 * (|z| / 8)]) && DecodeBytes(z) == bytes
  {
    var z := EncodeBytes(bytes);
    assert z[..8 * (|z| / 8)] == z;
    var r := DecodeBytes(z);
    forall k | 0 <= k < |bytes|
      ensures r[k] == bytes[k]
    {
      EncodeBytesGroups(bytes, k);
      EncodeByteRoundTrip(bytes[k]);
    }
  }

  /** What `decode(encode(s))` is for every text: its UTF-8 bytes read as Latin-1. */
  lemma DecodeEncode(s: string)
    ensures var z := Encode(s);
      IsBitString(z[..8 * (|z| / 8)]) && Decode(z) == Latin1(Utf8.Encode(s))
  {
    DecodeBytesEncodeBytes(Utf8.Encode(s));
  }

  /** Round trip for ASCII text: `decode(encode(s)) == s`. */
  lemma DecodeEncodeAscii(s: string)
    requires IsAscii(s)
    ensures var z := Encode(s);
      IsBitString(z[..8 * (|z| / 8)]) && Decode(z) == s
  {
    DecodeEncode(s);
    EncodeAscii(s);
  }

  /** The round trip fails outside ASCII: "é" (U+00E9, bytes C3 A9) comes back as "Ã©". */
  lemma DecodeEncodeLatin1Counterexample()
    ensures var z := Encode("é");
      IsBitString(z[..8 * (|z| / 8)]) && Decode(z) == "Ã©" && Decode(z) != "é"
  {
    assert Utf8.Encode("é") == [0xC3, 0xA9] by {
      assert "é"[1..] == [];
    }
    DecodeEncode("é");
    Latin1Pair(0xC3, 0xA9);
  }

  /** Two bytes read as Latin-1. */
  lemma Latin1Pair(x: byte, y: byte)
    ensures Latin1([x, y]) == [x as char, y as char]
  {
  }

  /** The intended round trip holds for every text. */
  lemma DecodeUtf8Encode(s: string)
    ensures var z := Encode(s);
      IsBitString(z[..8 * (|z| / 8)]) && DecodeUtf8(z) == Ok(s)
  {
    DecodeBytesEncodeBytes(Utf8.Encode(s));
    Utf8.DecodeEncode(s);
  }

  /** Symbols after the last complete group of eight do not change the result. */
  lemma DecodeIgnoresRemainder(code: string, extra: string)
    requires |code| % 8 == 0 && |extra| < 8 && IsBitString(code)
    ensures var full := code + extra;
      IsBitString(full[..8 * (|full| / 8)]) && Decode(full) == Decode(code)
  {
    var full := code + extra;
    assert full[..8 * (|full| / 8)] == code;
    assert code[..8 * (|code| / 8)] == code;
    forall k | 0 <= k < |code| / 8
      ensures full[8 * k..8 * k + 8] == code[8 * k..8 * k + 8]
    {
    }
    assert DecodeBytes(full) == DecodeBytes(code);
  }

  /** Encoding distributes over concatenation of bytes. */
  lemma {:induction false} EncodeBytesAppend(a: seq<byte>, b: seq<byte>)
    ensures EncodeBytes(a + b) == EncodeBytes(a) + EncodeBytes(b)
    decreases |a|
  {
    if a == [] {
      assert a + b == b;
    } else {
      assert (a + b)[1..] == a[1..] + b;
      EncodeBytesAppend(a[1..], b);
    }
  }

  /** Appending an ASCII character appends the eight symbols of its byte. */
  lemma EncodeSnoc(s: string, k: nat)
    requires k < |s| && s[k] as int < 0x80
    ensures Encode(s[..k + 1]) == Encode(s[..k]) + EncodeByte(s[k] as int)
  {
    assert s[..k + 1] == s[..k] + [s[k]];
    Utf8.EncodeAppend(s[..k], [s[k]]);
    assert Utf8.Encode([s[k]]) == [s[k] as int];
    EncodeBytesAppend(Utf8.Encode(s[..k]), [s[k] as int]);
  }

  /** Four more ASCII characters append the symbols of their four bytes. */
  lemma EncodeSnocFour(s: string, k: nat)
    requires k + 4 <= |s| && IsAscii(s)
    ensures Encode(s[..k + 4]) == Encode(s[..k]) +
      EncodeByte(s[k] as int) + EncodeByte(s[k + 1] as int) +
      EncodeByte(s[k + 2] as int) + EncodeByte(s[k + 3] as int)
  {
    EncodeSnoc(s, k);
    EncodeSnoc(s, k + 1);
    EncodeSnoc(s, k + 2);
    EncodeSnoc(s, k + 3);
  }

  /** A twelve-character ASCII text encodes byte by byte. */
  lemma EncodeTwelve(s: string)
    requires |s| == 12 && IsAscii(s)
    ensures Encode(s) ==
      EncodeByte(s[0] as int) +
      EncodeByte(s[1] as int) +
      EncodeByte(s[2] as int) +
      EncodeByte(s[3] as int) +
      EncodeByte(s[4] as int) +
      EncodeByte(s[5] as int) +
      EncodeByte(s[6] as int) +
      EncodeByte(s[7] as int) +
      EncodeByte(s[8] as int) +
      EncodeByte(s[9] as int) +
      EncodeByte(s[10] as int) +
      EncodeByte(s[11] as int)
  {
    assert s[..0] == [];
    EncodeSnoc(s, 0);
    assert Encode(s[..1]) == EncodeByte(s[0] as int);
    EncodeSnoc(s, 1);
    EncodeSnoc(s, 2);
    EncodeSnoc(s, 3);
    EncodeSnocFour(s, 4);
    EncodeSnocFour(s, 8);
    assert s[..12] == s;
  }

  /** `test_encode` and `test_decode` of `src/lib.rs`: "Hello World!", one line per input byte. */
  const HelloBits: string :=
    "\U{200B}\U{200C}\U{200B}\U{200B}\U{200C}\U{200B}\U{200B}\U{200B}" +
    "\U{200B}\U{200C}\U{200C}\U{200B}\U{200B}\U{200C}\U{200B}\U{200C}" +
    "\U{200B}\U{200C}\U{200C}\U{200B}\U{200C}\U{200C}\U{200B}\U{200B}" +
    "\U{200B}\U{200C}\U{200C}\U{200B}\U{200C}\U{200C}\U{200B}\U{200B}" +
    "\U{200B}\U{200C}\U{200C}\U{200B}\U{200C}\U{200C}\U{200C}\U{200C}" +
    "\U{200B}\U{200B}\U{200C}\U{200B}\U{200B}\U{200B}\U{200B}\U{200B}" +
    "\U{200B}\U{200C}\U{200B}\U{200C}\U{200B}\U{200C}\U{200C}\U{200C}" +
    "\U{200B}\U{200C}\U{200C}\U{200B}\U{200C}\U{200C}\U{200C}\U{200C}" +
    "\U{200B}\U{200C}\U{200C}\U{200C}\U{200B}\U{200B}\U{200C}\U{200B}" +
    "\U{200B}\U{200C}\U{200C}\U{200B}\U{200C}\U{200C}\U{200B}\U{200B}" +
    "\U{200B}\U{200C}\U{200C}\U{200B}\U{200B}\U{200C}\U{200B}\U{200B}" +
    "\U{200B}\U{200B}\U{200C}\U{200B}\U{200B}\U{200B}\U{200B}\U{200C}"

  /** The symbols of bytes 0 to 5 of the fixture text. */
  lemma HelloBytesFirst()
    ensures EncodeByte(HelloText[0] as int) == "\U{200B}\U{200C}\U{200B}\U{200B}\U{200C}\U{200B}\U{200B}\U{200B}"
    ensures EncodeByte(HelloText[1] as int) == "\U{200B}\U{200C}\U{200C}\U{200B}\U{200B}\U{200C}\U{200B}\U{200C}"
    ensures EncodeByte(HelloText[2] as int) == "\U{200B}\U{200C}\U{200C}\U{200B}\U{200C}\U{200C}\U{200B}\U{200B}"
    ensures EncodeByte(HelloText[3] as int) == "\U{200B}\U{200C}\U{200C}\U{200B}\U{200C}\U{200C}\U{200B}\U{200B}"
    ensures EncodeByte(HelloText[4] as int) == "\U{200B}\U{200C}\U{200C}\U{200B}\U{200C}\U{200C}\U{200C}\U{200C}"
    ensures EncodeByte(HelloText[5] as int) == "\U{200B}\U{200B}\U{200C}\U{200B}\U{200B}\U{200B}\U{200B}\U{200B}"
  {
    EncodeByteSpelled(HelloText[0] as int, "\U{200B}\U{200C}\U{200B}\U{200B}\U{200C}\U{200B}\U{200B}\U{200B}");
    EncodeByteSpelled(HelloText[1] as int, "\U{200B}\U{200C}\U{200C}\U{200B}\U{200B}\U{200C}\U{200B}\U{200C}");
    EncodeByteSpelled(HelloText[2] as int, "\U{200B}\U{200C}\U{200C}\U{200B}\U{200C}\U{200C}\U{200B}\U{200B}");
    EncodeByteSpelled(HelloText[3] as int, "\U{200B}\U{200C}\U{200C}\U{200B}\U{200C}\U{200C}\U{200B}\U{200B}");
    EncodeByteSpelled(HelloText[4] as int, "\U{200B}\U{200C}\U{200C}\U{200B}\U{200C}\U{200C}\U{200C}\U{200C}");
    EncodeByteSpelled(HelloText[5] as int, "\U{200B}\U{200B}\U{200C}\U{200B}\U{200B}\U{200B}\U{200B}\U{200B}");
  }

  /** The symbols of bytes 6 to 11 of the fixture text. */
  lemma HelloBytesLast()
    ensures EncodeByte(HelloText[6] as int) == "\U{200B}\U{200C}\U{200B}\U{200C}\U{200B}\U{200C}\U{200C}\U{200C}"
    ensures EncodeByte(HelloText[7] as int) == "\U{200B}\U{200C}\U{200C}\U{200B}\U{200C}\U{200C}\U{200C}\U{200C}"
    ensures EncodeByte(HelloText[8] as int) == "\U{200B}\U{200C}\U{200C}\U{200C}\U{200B}\U{200B}\U{200C}\U{200B}"
    ensures EncodeByte(HelloText[9] as int) == "\U{200B}\U{200C}\U{200C}\U{200B}\U{200C}\U{200C}\U{200B}\U{200B}"
    ensures EncodeByte(HelloText[10] as int) == "\U{200B}\U{200C}\U{200C}\U{200B}\U{200B}\U{200C}\U{200B}\U{200B}"
    ensures EncodeByte(HelloText[11] as int) == "\U{200B}\U{200B}\U{200C}\U{200B}\U{200B}\U{200B}\U{200B}\U{200C}"
  {
    EncodeByteSpelled(HelloText[6] as int, "\U{200B}\U{200C}\U{200B}\U{200C}\U{200B}\U{200C}\U{200C}\U{200C}");
    EncodeByteSpelled(HelloText[7] as int, "\U{200B}\U{200C}\U{200C}\U{200B}\U{200C}\U{200C}\U{200C}\U{200C}");
    EncodeByteSpelled(HelloText[8] as int, "\U{200B}\U{200C}\U{200C}\U{200C}\U{200B}\U{200B}\U{200C}\U{200B}");
    EncodeByteSpelled(HelloText[9] as int, "\U{200B}\U{200C}\U{200C}\U{200B}\U{200C}\U{200C}\U{200B}\U{200B}");
    EncodeByteSpelled(HelloText[10] as int, "\U{200B}\U{200C}\U{200C}\U{200B}\U{200B}\U{200C}\U{200B}\U{200B}");
    EncodeByteSpelled(HelloText[11] as int, "\U{200B}\U{200B}\U{200C}\U{200B}\U{200B}\U{200B}\U{200B}\U{200C}");
  }

  /** `test_encode` holds. */
  lemma EncodeHelloFixture()
    ensures Encode(HelloText) == HelloBits
  {
    HelloTextAscii();
    EncodeTwelve(HelloText);
    HelloBytesFirst();
    HelloBytesLast();
  }

  /** `test_decode` holds. */
  lemma DecodeHelloFixture()
    ensures IsBitString(HelloBits[..8 * (|HelloBits| / 8)]) && Decode(HelloBits) == HelloText
  {
    EncodeHelloFixture();
    HelloTextAscii();
    DecodeEncodeAscii(HelloText);
  }

  /** `test_bytes_to_binary`, first three cases. */
  lemma BytesToBinaryFixtures()
    ensures BytesToBinary(0) == "00000000"
    ensures BytesToBinary(1) == "00000001"
    ensures BytesToBinary(2) == "00000010"
  {
    assert Bits(0, 8) == "00000000";
    BytesToBinaryBits(0);
    assert Bits(1, 8) == "00000001";
    BytesToBinaryBits(1);
    assert Bits(2, 8) == "00000010";
    BytesToBinaryBits(2);
  }

  /** `test_bytes_to_binary`, the 32 case. */
  lemma BytesToBinarySpaceFixture()
    ensures BytesToBinary(32) == "00100000"
  {
    assert Bits(32, 8) == "00100000";
    BytesToBinaryBits(32);
  }

  /** `test_bytes_to_binary`, the 255 case. */
  lemma BytesToBinaryMaxFixture()
    ensures BytesToBinary(255) == "11111111"
  {
    assert Bits(255, 8) == "11111111";
    BytesToBinaryBits(255);
  }

  /** `test_convert_to_zero_width`, the all-zero and all-one cases. */
  lemma ConvertToZeroWidthFixtures()
    ensures ConvertToZeroWidth("00000000") == [Zero, Zero, Zero, Zero, Zero, Zero, Zero, Zero]
    ensures ConvertToZeroWidth("11111111") == [One, One, One, One, One, One, One, One]
  {
    ConvertEight("00000000");
    ConvertEight("11111111");
  }

  /** `test_convert_to_zero_width`, the alternating case. */
  lemma ConvertToZeroWidthAlternatingFixture()
    ensures ConvertToZeroWidth("10101010") == [One, Zero, One, Zero, One, Zero, One, Zero]
  {
    ConvertEight("10101010");
  }

  /** `test_convert_from_zero_width`, the 170 case. */
  lemma ConvertFromZeroWidthAlternatingFixture()
    ensures ConvertFromZeroWidth([One, Zero, One, Zero, One, Zero, One, Zero]) == 170
  {
    ConvertFromDigits(170);
  }

  /** `test_convert_from_zero_width`, the 255 case. */
  lemma ConvertFromZeroWidthMaxFixture()
    ensures ConvertFromZeroWidth([One, One, One, One, One, One, One, One]) == 255
  {
    ConvertFromDigits(255);
  }

  /** `test_convert_from_zero_width`, the 0 case. */
  lemma ConvertFromZeroWidthZeroFixture()
    ensures ConvertFromZeroWidth([Zero, Zero, Zero, Zero, Zero, Zero, Zero, Zero]) == 0
  {
    ConvertFromDigits(0);
  }
}
