/**
 * UTF-8 as section 3 and section 4 of RFC 3629 define it. This is what Rust's
 * `str::as_bytes` (encoding) and `String::from_utf8` (checked decoding) do, and
 * both codecs rely on it: the encoders work on the UTF-8 bytes of their input
 * and the 2-bit decoder reads the bytes it rebuilt back as UTF-8.
 */
module Utf8 {
  import opened Wrappers

  /** An octet, Rust's `u8`. */
  type byte = b: int | 0 <= b < 0x100

  /** A continuation byte, `10xxxxxx`. */
  predicate IsContinuation(b: byte) {
    0x80 <= b < 0xC0
  }

  /** True when every character of `s` is ASCII (one UTF-8 byte each). */
  predicate IsAscii(s: string) {
    forall i :: 0 <= i < |s| ==> s[i] as int < 0x80
  }

  /** The UTF-8 form of one Unicode scalar value (RFC 3629, section 3). */
  function EncodeChar(c: char): (r: seq<byte>)
    ensures 1 <= |r| <= 4
    ensures |r| == 1 <==> c as int < 0x80
    ensures r[0] !in {0xC0, 0xC1} && r[0] < 0xF5
  {
    var cp := c as int;
    if cp < 0x80 then [cp]
    else if cp < 0x800 then [0xC0 + cp / 64, 0x80 + cp % 64]
    else if cp < 0x1_0000 then [0xE0 + cp / 64 / 64, 0x80 + cp / 64 % 64, 0x80 + cp % 64]
    else [0xF0 + cp / 64 / 64 / 64, 0x80 + cp / 64 / 64 % 64, 0x80 + cp / 64 % 64, 0x80 + cp % 64]
  }

  /** The UTF-8 bytes of a string, Rust's `str::as_bytes`. */
  function Encode(s: string): (r: seq<byte>)
    ensures |r| >= |s|
    ensures r == [] <==> s == []
  {
    if s == [] then [] else EncodeChar(s[0]) + Encode(s[1..])
  }

  /**
   * Why `from_utf8` refused a byte sequence: the length of its longest valid
   * prefix, and the length of the ill-formed sequence that follows it, or
   * `None` when the input ends in the middle of a sequence (Rust's
   * `Utf8Error::valid_up_to` and `Utf8Error::error_len`).
   */
  datatype Utf8Error = Utf8Error(validUpTo: nat, errorLen: Option<nat>)

  lemma DivMod64(q: int, r: int)
    requires 0 <= q && 0 <= r < 64
    ensures (q * 64 + r) / 64 == q && (q * 64 + r) % 64 == r
  {
  }

  /** How many bytes a sequence starting with `b0` has; 0 when no sequence starts with it. */
  function Width(b0: byte): (w: nat)
    ensures w <= 4
  {
    if b0 < 0x80 then 1
    else if 0xC2 <= b0 < 0xE0 then 2
    else if 0xE0 <= b0 < 0xF0 then 3
    else if 0xF0 <= b0 < 0xF5 then 4
    else 0
  }

  /**
   * The range the second byte must lie in after the lead byte `b0` (section 4
   * of RFC 3629): narrower than a plain continuation byte after E0 and F0
   * (no overlong forms), ED (no surrogates) and F4 (nothing above U+10FFFF).
   */
  predicate SecondOk(b0: byte, b1: byte) {
    if b0 == 0xE0 then 0xA0 <= b1 < 0xC0
    else if b0 == 0xED then 0x80 <= b1 < 0xA0
    else if b0 == 0xF0 then 0x90 <= b1 < 0xC0
    else if b0 == 0xF4 then 0x80 <= b1 < 0x90
    else IsContinuation(b1)
  }

  /** The scalar value of a two-byte sequence whose bytes have been checked. */
  function Scalar2(b0: byte, b1: byte): (c: char)
    requires 0xC2 <= b0 < 0xE0 && IsContinuation(b1)
    ensures EncodeChar(c) == [b0, b1]
  {
    DivMod64(b0 - 0xC0, b1 - 0x80);
    ((b0 - 0xC0) * 64 + (b1 - 0x80)) as char
  }

  /** The scalar value of a three-byte sequence whose bytes have been checked. */
  function Scalar3(b0: byte, b1: byte, b2: byte): (c: char)
    requires 0xE0 <= b0 < 0xF0 && SecondOk(b0, b1) && IsContinuation(b2)
    ensures EncodeChar(c) == [b0, b1, b2]
  {
    var hi: int := (b0 - 0xE0) * 64 + (b1 - 0x80);
    DivMod64(hi, b2 - 0x80);
    DivMod64(b0 - 0xE0, b1 - 0x80);
    (hi * 64 + (b2 - 0x80)) as char
  }

  /** The scalar value of a four-byte sequence whose bytes have been checked. */
  function Scalar4(b0: byte, b1: byte, b2: byte, b3: byte): (c: char)
    requires 0xF0 <= b0 < 0xF5 && SecondOk(b0, b1) && IsContinuation(b2) && IsContinuation(b3)
    ensures EncodeChar(c) == [b0, b1, b2, b3]
  {
    var top: int := (b0 - 0xF0) * 64 + (b1 - 0x80);
    var hi: int := top * 64 + (b2 - 0x80);
    DivMod64(hi, b3 - 0x80);
    DivMod64(top, b2 - 0x80);
    DivMod64(b0 - 0xF0, b1 - 0x80);
    (hi * 64 + (b3 - 0x80)) as char
  }

  /**
   * Reads one well-formed character from the front of `b` in the order Rust's
   * validator checks its bytes: `Ok` with the character and its byte length,
   * or `Err` with the error length (`None`: the input ended inside the
   * sequence).
   */
  function DecodeFirst(b: seq<byte>): (r: Result<(char, nat), Option<nat>>)
    requires b != []
    ensures r.Ok? ==> 1 <= r.value.1 <= |b| && b[..r.value.1] == EncodeChar(r.value.0)
    ensures r.Err? && r.error.Some? ==> 1 <= r.error.value <= 3 && r.error.value <= |b|
    ensures r.Err? && r.error.None? ==> |b| < 4
  {
    var w := Width(b[0]);
    if w == 1 then
      assert b[..1] == [b[0]];
      Ok((b[0] as char, 1))
    else if w == 0 then Err(Some(1))
    else if |b| < 2 then Err(None)
    else if !SecondOk(b[0], b[1]) then Err(Some(1))
    else if w == 2 then
      assert b[..2] == [b[0], b[1]];
      Ok((Scalar2(b[0], b[1]), 2))
    else if |b| < 3 then Err(None)
    else if !IsContinuation(b[2]) then Err(Some(2))
    else if w == 3 then
      assert b[..3] == [b[0], b[1], b[2]];
      Ok((Scalar3(b[0], b[1], b[2]), 3))
    else if |b| < 4 then Err(None)
    else if !IsContinuation(b[3]) then Err(Some(3))
    else
      assert b[..4] == [b[0], b[1], b[2], b[3]];
      Ok((Scalar4(b[0], b[1], b[2], b[3]), 4))
  }

  /** A character's bytes followed by a string's bytes are the bytes of the string with the character in front. */
  lemma EncodeCons(b: seq<byte>, c: char, n: nat, s: string)
    requires 1 <= n <= |b| && b[..n] == EncodeChar(c) && Encode(s) == b[n..]
    ensures Encode([c] + s) == b
  {
    assert b == b[..n] + b[n..];
    assert ([c] + s)[1..] == s;
  }

  /**
   * Rust's `String::from_utf8`: the string whose UTF-8 form is `b`, or where
   * the first ill-formed sequence starts and how long it is.
   */
  function Decode(b: seq<byte>): (r: Result<string, Utf8Error>)
    ensures r.Ok? ==> Encode(r.value) == b
    ensures r.Err? ==> r.error.validUpTo < |b|
    decreases |b|
  {
    if b == [] then Ok([])
    else
      match DecodeFirst(b)
      case Err(len) => Err(Utf8Error(0, len))
      case Ok((c, n)) =>
        match Decode(b[n..])
        case Ok(s) =>
          EncodeCons(b, c, n, s);
          Ok([c] + s)
        case Err(e) => Err(Utf8Error(n + e.validUpTo, e.errorLen))
  }

  /** The decimal digits of `n`, as `{}` formats an unsigned integer. */
  function Decimal(n: nat): (r: string)
    ensures |r| >= 1
    ensures forall i :: 0 <= i < |r| ==> '0' <= r[i] <= '9'
    ensures r[0] == '0' <==> n == 0
    ensures r[|r| - 1] as int - '0' as int == n % 10
  {
    var digit := ['0' + (n % 10) as char];
    if n < 10 then digit else Decimal(n / 10) + digit
  }

  /** The fixed parts of the two texts a `Utf8Error` displays as. */
  const SequenceText := "invalid utf-8 sequence of "
  const BytesFromText := " bytes from index "
  const IncompleteText := "incomplete utf-8 byte sequence from index "

  /**
   * How Rust displays a `Utf8Error`: the length of the bad sequence and where
   * it starts, or where the truncated sequence starts.
   */
  function ErrorText(e: Utf8Error): string {
    match e.errorLen
    case Some(len) => SequenceText + Decimal(len) + BytesFromText + Decimal(e.validUpTo)
    case None => IncompleteText + Decimal(e.validUpTo)
  }

  /**
   * The text of a `Utf8Error` names the length of the bad sequence and where
   * it starts, or where the truncated sequence starts.
   */
  lemma ErrorTextParts(e: Utf8Error)
    ensures var r, at := ErrorText(e), Decimal(e.validUpTo);
      e.errorLen.Some? ==>
        var len := Decimal(e.errorLen.value);
        |r| == |SequenceText| + |len| + |BytesFromText| + |at| &&
        r[..|SequenceText|] == SequenceText && r[|SequenceText|..|SequenceText| + |len|] == len &&
        r[|SequenceText| + |len|..|r| - |at|] == BytesFromText && r[|r| - |at|..] == at
    ensures var r, at := ErrorText(e), Decimal(e.validUpTo);
      e.errorLen.None? ==>
        |r| == |IncompleteText| + |at| && r[..|IncompleteText|] == IncompleteText && r[|IncompleteText|..] == at
  {
    var r, at := ErrorText(e), Decimal(e.validUpTo);
    match e.errorLen
    case Some(len) =>
      Parts(r, SequenceText, Decimal(len), BytesFromText, at);
    case None =>
      Parts(r, IncompleteText, at, [], []);
  }

  /** Where the parts of a concatenation of four strings (or of two, the last two being empty) lie. */
  lemma Parts(r: string, a: string, b: string, c: string, d: string)
    requires r == a + b + c + d || (c == d == [] && r == a + b)
    ensures |r| == |a| + |b| + |c| + |d| &&
      r[..|a|] == a && r[|a|..|a| + |b|] == b && r[|a| + |b|..|r| - |d|] == c &&
      r[|r| - |d|..] == d && r[|a|..] == b + c + d
  {
  }

  lemma {:induction false} EncodeAppend(s: string, u: string)
    ensures Encode(s + u) == Encode(s) + Encode(u)
    decreases |s|
  {
    if s == [] {
      assert s + u == u;
    } else {
      assert (s + u)[0] == s[0];
      assert (s + u)[1..] == s[1..] + u;
      EncodeAppend(s[1..], u);
    }
  }

  /** Reading back the bytes of one character yields that character, whatever follows. */
  lemma DecodeFirstEncodeChar(c: char, rest: seq<byte>)
    ensures DecodeFirst(EncodeChar(c) + rest) == Ok((c, |EncodeChar(c)|))
  {
    var e := EncodeChar(c);
    var b := e + rest;
    var cp := c as int;
    assert b[0] == e[0];
    if cp < 0x80 {
    } else if cp < 0x800 {
      assert b[1] == e[1];
      DivMod64(cp / 64, cp % 64);
    } else if cp < 0x1_0000 {
      assert b[1] == e[1] && b[2] == e[2];
      DivMod64(cp / 64 / 64, cp / 64 % 64);
      DivMod64(cp / 64, cp % 64);
    } else {
      assert b[1] == e[1] && b[2] == e[2] && b[3] == e[3];
      DivMod64(cp / 64 / 64 / 64, cp / 64 / 64 % 64);
      DivMod64(cp / 64 / 64, cp / 64 % 64);
      DivMod64(cp / 64, cp % 64);
    }
    var r := DecodeFirst(b);
    assert r.Ok?;
    assert b[..r.value.1] == EncodeChar(r.value.0);
  }

  /** A well-formed character in front of a well-formed tail is read back in front of the tail's string. */
  lemma DecodeCons(c: char, tail: seq<byte>)
    requires Decode(tail).Ok?
    ensures Decode(EncodeChar(c) + tail) == Ok([c] + Decode(tail).value)
  {
    var b := EncodeChar(c) + tail;
    DecodeFirstEncodeChar(c, tail);
    assert b[|EncodeChar(c)|..] == tail;
  }

  /** Round trip: `from_utf8(s.as_bytes()) == Ok(s)` for every string. */
  lemma {:induction false} DecodeEncode(s: string)
    ensures Decode(Encode(s)) == Ok(s)
    decreases |s|
  {
    if s != [] {
      DecodeEncode(s[1..]);
      DecodeCons(s[0], Encode(s[1..]));
      assert [s[0]] + s[1..] == s;
    }
  }

  /** `from_utf8` succeeds with `s` exactly when the bytes are the UTF-8 form of `s`. */
  lemma DecodeIff(b: seq<byte>, s: string)
    ensures Decode(b) == Ok(s) <==> Encode(s) == b
  {
    if Encode(s) == b {
      DecodeEncode(s);
    }
  }

  /** When the first character is well-formed, the error lies in the rest. */
  lemma DecodeErrTail(b: seq<byte>, c: char, n: nat)
    requires b != [] && DecodeFirst(b) == Ok((c, n)) && Decode(b).Err?
    ensures Decode(b[n..]).Err?
    ensures Decode(b).error.validUpTo == n + Decode(b[n..]).error.validUpTo
  {
  }

  /** Splitting a prefix after its first n bytes. */
  lemma PrefixSplit(b: seq<byte>, n: nat, k: nat)
    requires n + k <= |b|
    ensures b[..n + k] == b[..n] + b[n..][..k]
  {
  }

  /** The reported offset is the end of a well-formed prefix. */
  lemma {:induction false} DecodeValidUpTo(b: seq<byte>)
    requires Decode(b).Err?
    ensures Decode(b[..Decode(b).error.validUpTo]).Ok?
    decreases |b|
  {
    if DecodeFirst(b).Err? {
      assert b[..0] == [];
    } else {
      var c, n := DecodeFirst(b).value.0, DecodeFirst(b).value.1;
      DecodeErrTail(b, c, n);
      var tail := b[n..];
      var k := Decode(tail).error.validUpTo;
      DecodeValidUpTo(tail);
      PrefixSplit(b, n, k);
      DecodeCons(c, tail[..k]);
    }
  }

  /** An ASCII byte followed by a stray continuation byte: one bad byte at index 1. */
  lemma DecodeStrayContinuation(b: seq<byte>)
    requires |b| >= 2 && b[0] < 0x80 && IsContinuation(b[1])
    ensures Decode(b) == Err(Utf8Error(1, Some(1)))
  {
    assert DecodeFirst(b) == Ok((b[0] as char, 1));
    assert b[1..][0] == b[1];
    assert DecodeFirst(b[1..]) == Err(Some(1));
  }

  /** An ASCII string is its own byte sequence: one byte per character, the code itself. */
  lemma {:induction false} EncodeAscii(s: string)
    requires IsAscii(s)
    ensures |Encode(s)| == |s|
    ensures forall i :: 0 <= i < |s| ==> Encode(s)[i] == s[i] as int
    decreases |s|
  {
    if s != [] {
      assert IsAscii(s[1..]);
      EncodeAscii(s[1..]);
    }
  }
}
