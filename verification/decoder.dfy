/**
 * The 2-bit decoder of `src/decoder/mod.rs`: validate every symbol against the
 * table, rebuild one byte from each complete group of four symbols, then read
 * the bytes back as UTF-8.
 */
module Decoder {
  import opened Wrappers
  import opened Utf8
  import opened Alphabet
  import Encoder
  import Arith

  /** `validate_before_decode`: `chars().all(|c| table.contains(&c))`. */
  function ValidateBeforeDecode(code: string, t: seq<char>): (ok: bool)
    ensures ok <==> IsSymbolString(code, t)
  {
    if code == [] then true
    else code[0] in t && ValidateBeforeDecode(code[1..], t)
  }

  /**
   * The guards `c if c == table[i] => i` of `convert_from_zero_width`: the
   * first index holding `c`. The `panic!` arm cannot be taken, since the only
   * caller has validated every symbol first.
   */
  function SymbolValue(c: char, t: seq<char>): (d: nat)
    requires |t| == 4 && c in t
    ensures d < 4 && t[d] == c
    ensures forall j :: 0 <= j < d ==> t[j] != c
  {
    if c == t[0] then 0
    else if c == t[1] then 1
    else if c == t[2] then 2
    else 3
  }

  /** `acc << 2 | x` on a `u8`: the top two bits of `acc` fall off. */
  function ShiftIn(acc: byte, x: nat): (r: byte)
    requires x < 4
    ensures r % 4 == x && r / 4 == acc % 64
  {
    (acc % 64) * 4 + x
  }

  /** The `fold` of `convert_from_zero_width`, from accumulator `acc`. */
  function Fold(acc: byte, s: string, t: seq<char>): (r: byte)
    requires |t| == 4 && IsSymbolString(s, t)
    ensures s == [] ==> r == acc
    ensures s != [] ==> r % 4 == SymbolValue(s[|s| - 1], t)
    decreases |s|
  {
    if s == [] then acc
    else Fold(ShiftIn(acc, SymbolValue(s[0], t)), s[1..], t)
  }

  /** `convert_from_zero_width`: the symbols' values folded into one byte, starting from 0. */
  function ConvertFromZeroWidth(s: string, t: seq<char>): (r: byte)
    requires |t| == 4 && IsSymbolString(s, t)
    ensures s == [] ==> r == 0
    ensures s != [] ==> r % 4 == SymbolValue(s[|s| - 1], t)
  {
    Fold(0, s, t)
  }

  /**
   * The byte vector `(0..count / 4).map(|i| convert_from_zero_width(chars
   * 4i..4i+3))`: one byte per complete group, a trailing 1 to 3 symbols ignored.
   */
  function Bytes(code: string, t: seq<char>): (r: seq<byte>)
    requires |t| == 4 && IsSymbolString(code, t)
    ensures |r| == |code| / 4
    ensures forall k :: 0 <= k < |r| ==> r[k] == ConvertFromZeroWidth(code[4 * k..4 * k + 4], t)
  {
    seq(|code| / 4, k requires 0 <= k < |code| / 4 => ConvertFromZeroWidth(code[4 * k..4 * k + 4], t))
  }

  /** The message of a rejected symbol string. */
  function InvalidCodeMessage(code: string): (m: string)
    ensures |m| == 25 + |code| && m[..25] == "Invalid zero-width code: " && m[25..] == code
  {
    "Invalid zero-width code: " + code
  }

  /** The message of a byte sequence that is not UTF-8. */
  function InvalidUtf8Message(e: Utf8Error): (m: string)
    ensures |m| > 14 && m[..14] == "Invalid UTF8: " && m[14..] == ErrorText(e)
  {
    "Invalid UTF8: " + ErrorText(e)
  }

  /**
   * `decode`: rejects a code holding a foreign character, otherwise decodes
   * the rebuilt bytes as UTF-8. On success the text's UTF-8 form is exactly
   * the rebuilt bytes.
   */
  function Decode(code: string, t: seq<char>): (r: Result<string, string>)
    requires |t| == 4
    ensures !IsSymbolString(code, t) ==> r == Err(InvalidCodeMessage(code))
    ensures r.Ok? <==> IsSymbolString(code, t) && Utf8.Decode(Bytes(code, t)).Ok?
    ensures r.Ok? ==> Utf8.Encode(r.value) == Bytes(code, t)
    ensures IsSymbolString(code, t) && r.Err? ==>
              r == Err(InvalidUtf8Message(Utf8.Decode(Bytes(code, t)).error))
  {
    if !ValidateBeforeDecode(code, t) then Err(InvalidCodeMessage(code))
    else
      match Utf8.Decode(Bytes(code, t))
      case Ok(s) => Ok(s)
      case Err(e) => Err(InvalidUtf8Message(e))
  }

  /** In a table, the value of entry `d` is `d`: the guards find the right arm. */
  lemma SymbolValueOfEntry(t: seq<char>, d: nat)
    requires IsTable(t) && d < 4
    ensures SymbolValue(t[d], t) == d
  {
  }

  /** While the accumulator is below 64, the shift loses nothing. */
  lemma ShiftInSmall(acc: byte, x: nat)
    requires acc < 64 && x < 4
    ensures ShiftIn(acc, x) == 4 * acc + x
  {
  }

  /** A group of four symbols folds to `((v0 * 4 + v1) * 4 + v2) * 4 + v3`. */
  lemma ConvertFromZeroWidthValue(s: string, t: seq<char>)
    requires |t| == 4 && |s| == 4 && IsSymbolString(s, t)
    ensures ConvertFromZeroWidth(s, t) ==
      64 * SymbolValue(s[0], t) + 16 * SymbolValue(s[1], t) + 4 * SymbolValue(s[2], t) + SymbolValue(s[3], t)
  {
    var v0, v1, v2, v3 := SymbolValue(s[0], t), SymbolValue(s[1], t), SymbolValue(s[2], t), SymbolValue(s[3], t);
    ShiftInSmall(0, v0);
    var a1 := ShiftIn(0, v0);
    ShiftInSmall(a1, v1);
    var a2 := ShiftIn(a1, v1);
    ShiftInSmall(a2, v2);
    var a3 := ShiftIn(a2, v2);
    ShiftInSmall(a3, v3);
    var a4 := ShiftIn(a3, v3);
    assert s[3..][0] == s[3] && s[3..][1..] == [];
    assert Fold(a3, s[3..], t) == a4;
    assert s[2..][0] == s[2] && s[2..][1..] == s[3..];
    assert Fold(a2, s[2..], t) == a4;
    assert s[1..][0] == s[1] && s[1..][1..] == s[2..];
    assert Fold(a1, s[1..], t) == a4;
  }

  /** In base 4, digits below 4 are recovered from the number they make. */
  lemma Base4Digits(v0: nat, v1: nat, v2: nat, v3: nat)
    requires v0 < 4 && v1 < 4 && v2 < 4 && v3 < 4
    ensures var b := 64 * v0 + 16 * v1 + 4 * v2 + v3;
      b / 64 == v0 && b / 16 % 4 == v1 && b / 4 % 4 == v2 && b % 4 == v3
  {
    var b := 64 * v0 + 16 * v1 + 4 * v2 + v3;
    Arith.DivUnique(b, 64, v0, 16 * v1 + 4 * v2 + v3);
    Arith.DivUnique(b, 16, 4 * v0 + v1, 4 * v2 + v3);
    Arith.DivUnique(4 * v0 + v1, 4, v0, v1);
    Arith.DivUnique(b, 4, 16 * v0 + 4 * v1 + v2, v3);
    Arith.DivUnique(16 * v0 + 4 * v1 + v2, 4, 4 * v0 + v1, v2);
  }

  /** The byte made of four base-4 digits encodes to the symbols of those digits. */
  lemma SymbolsOfDigits(v0: nat, v1: nat, v2: nat, v3: nat, t: seq<char>)
    requires v0 < 4 && v1 < 4 && v2 < 4 && v3 < 4 && |t| == 4
    ensures Encoder.ConvertToZeroWidth(64 * v0 + 16 * v1 + 4 * v2 + v3, t) == [t[v0], t[v1], t[v2], t[v3]]
  {
    Base4Digits(v0, v1, v2, v3);
    Encoder.ConvertToZeroWidthDigits(64 * v0 + 16 * v1 + 4 * v2 + v3, t);
  }

  /** Decoding the four symbols of a byte gives the byte back. */
  lemma ConvertRoundTrip(b: byte, t: seq<char>)
    requires IsTable(t)
    ensures ConvertFromZeroWidth(Encoder.ConvertToZeroWidth(b, t), t) == b
  {
    var s := Encoder.ConvertToZeroWidth(b, t);
    Encoder.ConvertToZeroWidthDigits(b, t);
    ConvertFromZeroWidthValue(s, t);
    SymbolValueOfEntry(t, b / 64);
    SymbolValueOfEntry(t, b / 16 % 4);
    SymbolValueOfEntry(t, b / 4 % 4);
    SymbolValueOfEntry(t, b % 4);
    Encoder.DigitsRecompose(b);
  }

  /** Encoding the byte a group folds to gives the group back. */
  lemma ConvertRoundTripBack(s: string, t: seq<char>)
    requires IsTable(t) && |s| == 4 && IsSymbolString(s, t)
    ensures Encoder.ConvertToZeroWidth(ConvertFromZeroWidth(s, t), t) == s
  {
    var v0, v1, v2, v3 := SymbolValue(s[0], t), SymbolValue(s[1], t), SymbolValue(s[2], t), SymbolValue(s[3], t);
    var b := ConvertFromZeroWidth(s, t);
    assert b == 64 * v0 + 16 * v1 + 4 * v2 + v3 by {
      ConvertFromZeroWidthValue(s, t);
    }
    assert Encoder.ConvertToZeroWidth(b, t) == [t[v0], t[v1], t[v2], t[v3]] by {
      SymbolsOfDigits(v0, v1, v2, v3, t);
    }
    SymbolsOfValues(s, t);
  }

  /** Four symbols are the table entries at their own values. */
  lemma SymbolsOfValues(s: string, t: seq<char>)
    requires |t| == 4 && |s| == 4 && IsSymbolString(s, t)
    ensures s == [t[SymbolValue(s[0], t)], t[SymbolValue(s[1], t)], t[SymbolValue(s[2], t)], t[SymbolValue(s[3], t)]]
  {
    assert s[0] in t && s[1] in t && s[2] in t && s[3] in t;
  }

  /** The first group becomes the first byte; the rest decodes on its own. */
  lemma BytesCons(code: string, t: seq<char>)
    requires |t| == 4 && IsSymbolString(code, t) && |code| >= 4
    ensures Bytes(code, t) == [ConvertFromZeroWidth(code[..4], t)] + Bytes(code[4..], t)
  {
    var r, rest := Bytes(code, t), Bytes(code[4..], t);
    forall k | 0 <= k < |rest|
      ensures rest[k] == r[k + 1]
    {
      assert code[4..][4 * k..4 * k + 4] == code[4 * (k + 1)..4 * (k + 1) + 4];
    }
  }

  /** A string of fewer than four symbols yields no byte. */
  lemma BytesShort(code: string, t: seq<char>)
    requires |t| == 4 && IsSymbolString(code, t) && |code| < 4
    ensures Bytes(code, t) == []
  {
  }

  /** Rebuilding the bytes of an encoding gives the original bytes. */
  lemma {:induction false} BytesEncodeBytes(bytes: seq<byte>, t: seq<char>)
    requires IsTable(t)
    ensures IsSymbolString(Encoder.EncodeBytes(bytes, t), t)
    ensures Bytes(Encoder.EncodeBytes(bytes, t), t) == bytes
    decreases |bytes|
  {
    Encoder.EncodeBytesSymbols(bytes, t);
    var code := Encoder.EncodeBytes(bytes, t);
    if bytes != [] {
      var head := Encoder.ConvertToZeroWidth(bytes[0], t);
      assert code[..4] == head && code[4..] == Encoder.EncodeBytes(bytes[1..], t);
      BytesCons(code, t);
      ConvertRoundTrip(bytes[0], t);
      BytesEncodeBytes(bytes[1..], t);
    }
  }

  /** Re-encoding the rebuilt bytes gives back every complete group of the code. */
  lemma {:induction false} EncodeBytesBytes(code: string, t: seq<char>)
    requires IsTable(t) && IsSymbolString(code, t)
    ensures Encoder.EncodeBytes(Bytes(code, t), t) == code[..4 * (|code| / 4)]
    decreases |code|
  {
    if |code| < 4 {
      BytesShort(code, t);
    } else {
      var rest, b := code[4..], Bytes(code, t);
      assert b[0] == ConvertFromZeroWidth(code[..4], t) && b[1..] == Bytes(rest, t) by {
        BytesCons(code, t);
      }
      assert Encoder.ConvertToZeroWidth(b[0], t) == code[..4] by {
        ConvertRoundTripBack(code[..4], t);
      }
      assert Encoder.EncodeBytes(b[1..], t) == rest[..4 * (|rest| / 4)] by {
        EncodeBytesBytes(rest, t);
      }
      CompleteGroupsCons(code);
    }
  }

  /** The complete groups of a code are its first group followed by those of the rest. */
  lemma CompleteGroupsCons(code: string)
    requires |code| >= 4
    ensures code[..4 * (|code| / 4)] == code[..4] + code[4..][..4 * ((|code| - 4) / 4)]
  {
    assert 4 * (|code| / 4) == 4 + 4 * ((|code| - 4) / 4);
  }

  /** Round trip: `decode(encode(s)) == Ok(s)` for every text. */
  lemma DecodeEncode(s: string, t: seq<char>)
    requires IsTable(t)
    ensures Decode(Encoder.Encode(s, t), t) == Ok(s)
  {
    BytesEncodeBytes(Utf8.Encode(s), t);
    Utf8.DecodeEncode(s);
  }

  /**
   * The converse: a successful decode reads the complete groups of the code,
   * and encoding its text gives back exactly those groups.
   */
  lemma EncodeDecode(code: string, t: seq<char>)
    requires IsTable(t) && Decode(code, t).Ok?
    ensures Encoder.Encode(Decode(code, t).value, t) == code[..4 * (|code| / 4)]
  {
    EncodeBytesBytes(code, t);
  }

  /** Symbols after the last complete group do not change the result. */
  lemma DecodeIgnoresRemainder(code: string, extra: string, t: seq<char>)
    requires |t| == 4 && |code| % 4 == 0 && |extra| < 4
    requires IsSymbolString(code, t) && IsSymbolString(extra, t)
    ensures Decode(code + extra, t) == Decode(code, t)
  {
    var full := code + extra;
    assert IsSymbolString(full, t);
    forall k | 0 <= k < |code| / 4
      ensures full[4 * k..4 * k + 4] == code[4 * k..4 * k + 4]
    {
    }
    assert Bytes(full, t) == Bytes(code, t);
  }

  /** Fewer than four valid symbols decode to the empty text. */
  lemma DecodeShort(code: string, t: seq<char>)
    requires |t| == 4 && IsSymbolString(code, t) && |code| < 4
    ensures Decode(code, t) == Ok("")
  {
    BytesShort(code, t);
  }

  /** `test_decode`: the encoder's fixture decodes to "Hello World!". */
  lemma DecodeHelloFixture()
    ensures Decode(Encoder.HelloZeroWidth, ZeroWidthTable) == Ok(HelloText)
  {
    FixtureTables();
    Encoder.EncodeHelloFixture();
    DecodeEncode(HelloText, ZeroWidthTable);
  }

  /** `test_decode_invalid_input_01`: plain text is rejected before anything is decoded. */
  lemma DecodePlainTextFixture()
    ensures Decode(HelloText, ZeroWidthTable) == Err("Invalid zero-width code: " + "Hello World!")
  {
    assert HelloText[0] !in ZeroWidthTable;
  }

  /**
   * The input of `test_decode_invalid_input`: the fixture with its third
   * symbol removed, so that every group after the first is shifted by one.
   */
  const ShiftedCode: string := Encoder.HelloZeroWidth[..2] + Encoder.HelloZeroWidth[3..]

  /** Dropping one symbol from a symbol string leaves a symbol string. */
  lemma DropSymbol(code: string, k: nat, t: seq<char>)
    requires k < |code| && IsSymbolString(code, t)
    ensures IsSymbolString(code[..k] + code[k + 1..], t)
  {
    var d := code[..k] + code[k + 1..];
    forall i | 0 <= i < |d|
      ensures d[i] in t
    {
      if i < k {
        assert d[i] == code[i];
      } else {
        assert d[i] == code[i + 1];
      }
    }
  }

  /** The shifted code consists of table symbols. */
  lemma ShiftedCodeSymbols()
    ensures IsSymbolString(ShiftedCode, ZeroWidthTable)
    ensures |ShiftedCode| == 47
  {
    var code := Encoder.HelloZeroWidth;
    assert |code| == 48;
    assert IsSymbolString(code, ZeroWidthTable) by {
      Encoder.EncodeHelloFixture();
      assert code == Encoder.Encode(HelloText, ZeroWidthTable);
    }
    DropSymbol(code, 2, ZeroWidthTable);
    assert ShiftedCode == code[..2] + code[3..];
  }

  /** The first eight symbols of the shifted code. */
  lemma ShiftedCodePrefix()
    ensures |ShiftedCode| >= 8
    ensures ShiftedCode[..8] ==
      ['\U{200D}', '\U{200C}', '\U{200C}', '\U{200D}', '\U{2060}', '\U{200D}', '\U{200D}', '\U{200D}']
  {
  }

  /** The first two groups of the shifted code: 'A' (0x41), then 0x95. */
  lemma ShiftedCodeBytes()
    ensures IsSymbolString(ShiftedCode, ZeroWidthTable)
    ensures |Bytes(ShiftedCode, ZeroWidthTable)| == 11
    ensures Bytes(ShiftedCode, ZeroWidthTable)[0] == 0x41
    ensures Bytes(ShiftedCode, ZeroWidthTable)[1] == 0x95
  {
    var t, code := ZeroWidthTable, ShiftedCode;
    ShiftedCodeSymbols();
    ShiftedCodePrefix();
    var g0, g1 := code[0..4], code[4..8];
    assert g0 == ['\U{200D}', '\U{200C}', '\U{200C}', '\U{200D}'];
    assert g1 == ['\U{2060}', '\U{200D}', '\U{200D}', '\U{200D}'];
    ConvertFromZeroWidthValue(g0, t);
    ConvertFromZeroWidthValue(g1, t);
  }

  /**
   * `test_decode_invalid_input`: byte 1 is a continuation byte with no lead
   * byte before it, so the message starts with "Invalid UTF8:" and reports
   * one bad byte at index 1.
   */
  lemma DecodeShiftedFixture()
    ensures Decode(ShiftedCode, ZeroWidthTable) == Err(InvalidUtf8Message(Utf8Error(1, Some(1))))
    ensures Decode(ShiftedCode, ZeroWidthTable).error[..13] == "Invalid UTF8:"
  {
    ShiftedCodeBytes();
    Utf8.DecodeStrayContinuation(Bytes(ShiftedCode, ZeroWidthTable));
  }

  /** `test_validate_before_decode`. */
  lemma ValidateFixtures()
    ensures ValidateBeforeDecode([ZeroWidthTable[0], ZeroWidthTable[1], ZeroWidthTable[2], ZeroWidthTable[3]], ZeroWidthTable)
    ensures !ValidateBeforeDecode("hello world", ZeroWidthTable)
  {
    assert "hello world"[0] !in ZeroWidthTable;
  }

  /** `test_convert_from_zero_width`: t0 x4 is 0, t2 x4 is 170, t3 x4 is 255. */
  lemma ConvertFromZeroWidthFixtures(t: seq<char>)
    requires IsTable(t)
    ensures ConvertFromZeroWidth([t[0], t[0], t[0], t[0]], t) == 0
    ensures ConvertFromZeroWidth([t[2], t[2], t[2], t[2]], t) == 170
    ensures ConvertFromZeroWidth([t[3], t[3], t[3], t[3]], t) == 255
  {
    ConvertRoundTrip(0, t);
    ConvertRoundTrip(170, t);
    ConvertRoundTrip(255, t);
    Encoder.ConvertToZeroWidthFixtures(t);
  }
}
