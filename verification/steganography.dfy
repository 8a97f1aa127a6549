/**
 * `src/steganography/mod.rs`: hiding a payload of zero-width symbols in the
 * middle of a carrier text, and finding it again. The codec underneath is the
 * 2-bit one of `src/encoder/mod.rs` and `src/decoder/mod.rs`, with the table
 * as a parameter.
 */
module Steganography {
  import opened Wrappers
  import Utf8
  import opened Alphabet
  import Encoder
  import Decoder

  // ----- embed -----

  /**
   * `embed` as intended: the symbols of `hidden` spliced into `text` after its
   * first `charCount / 2` characters.
   */
  function Embed(text: string, hidden: string, t: seq<char>): (r: string)
    requires |t| == 4
    ensures var c, p := |text| / 2, Encoder.Encode(hidden, t);
      |r| == |text| + |p| && r[..c] == text[..c] && r[c..c + |p|] == p && r[c + |p|..] == text[c..]
  {
    text[..|text| / 2] + Encoder.Encode(hidden, t) + text[|text| / 2..]
  }

  /**
   * `str::split_at(mid)`: `mid` counts UTF-8 bytes. The characters whose bytes
   * fill exactly the first `mid` bytes, and the rest; `None` where Rust
   * panics, because `mid` falls inside a character or past the end
   * (`SplitAtByteIff`: it succeeds exactly at the byte length of a prefix).
   */
  function SplitAtByte(s: string, mid: nat): (r: Option<(string, string)>)
    ensures r.Some? ==> r.value.0 + r.value.1 == s && |Utf8.Encode(r.value.0)| == mid
    decreases s
  {
    if mid == 0 then Some(([], s))
    else if s == [] then None
    else
      var w := |Utf8.EncodeChar(s[0])|;
      if mid < w then None
      else match SplitAtByte(s[1..], mid - w)
        case None => None
        case Some((a, b)) =>
          SplitCons(s, a, b);
          Some(([s[0]] + a, b))
  }

  /** The bytes of the first `k` characters: none, or the first character's and then the rest's. */
  lemma PrefixBytes(s: string, k: nat)
    requires k <= |s|
    ensures k == 0 ==> |Utf8.Encode(s[..k])| == 0
    ensures k > 0 ==> |Utf8.Encode(s[..k])| == |Utf8.EncodeChar(s[0])| + |Utf8.Encode(s[1..][..k - 1])|
  {
    if k > 0 {
      var p := s[..k];
      assert p[0] == s[0] && p[1..] == s[1..][..k - 1];
    } else {
      assert s[..k] == [];
    }
  }

  /** Putting the first character back in front of a split of the rest. */
  lemma SplitCons(s: string, a: string, b: string)
    requires s != [] && a + b == s[1..]
    ensures [s[0]] + a + b == s
    ensures |Utf8.Encode([s[0]] + a)| == |Utf8.EncodeChar(s[0])| + |Utf8.Encode(a)|
  {
    var first := [s[0]] + a;
    assert first[0] == s[0] && first[1..] == a;
    assert s == [s[0]] + s[1..];
  }

  /**
   * `embed` as written: the character count `charCount / 2` is handed to
   * `split_at`, which reads it as a byte index. `None` is the panic.
   */
  function EmbedAsWritten(text: string, hidden: string, t: seq<char>): (r: Option<string>)
    requires |t| == 4
    ensures r.Some? ==> |r.value| == |text| + |Encoder.Encode(hidden, t)|
  {
    match SplitAtByte(text, |text| / 2)
    case None => None
    case Some((first, last)) => Some(first + Encoder.Encode(hidden, t) + last)
  }

  // ----- detect -----

  /** The index of the first table character at or after `i`, or `|s|` when there is none. */
  function RunStart(s: string, t: seq<char>, i: nat): (a: nat)
    requires i <= |s|
    ensures i <= a <= |s|
    ensures forall k :: i <= k < a ==> s[k] !in t
    ensures a < |s| ==> s[a] in t
    decreases |s| - i
  {
    if i == |s| || s[i] in t then i else RunStart(s, t, i + 1)
  }

  /** The index of the first non-table character at or after `i`, or `|s|` when there is none. */
  function RunEnd(s: string, t: seq<char>, i: nat): (b: nat)
    requires i <= |s|
    ensures i <= b <= |s|
    ensures forall k :: i <= k < b ==> s[k] in t
    ensures b < |s| ==> s[b] !in t
    decreases |s| - i
  {
    if i == |s| || s[i] !in t then i else RunEnd(s, t, i + 1)
  }

  /**
   * The bounds of the leftmost maximal run of table characters: what the
   * pattern `[t]+` matches first. `None` when `s` has no table character.
   */
  function FirstRun(s: string, t: seq<char>): (r: Option<(nat, nat)>)
    ensures r.None? <==> FreeOf(s, t)
    ensures r.Some? ==> var a, b := r.value.0, r.value.1;
      a < b <= |s| && FreeOf(s[..a], t) && IsSymbolString(s[a..b], t) && (b == |s| || s[b] !in t)
  {
    var a := RunStart(s, t, 0);
    if a == |s| then None else Some((a, RunEnd(s, t, a)))
  }

  /**
   * `regex`: one `exec` of `RegExp("[t]+", "g")` on a fresh object, so the
   * first match only: `None`, or the one-element match array.
   */
  function Regex(input: string, t: seq<char>): (m: Option<seq<string>>)
    ensures m.None? <==> FreeOf(input, t)
    ensures m.Some? ==> |m.value| == 1 && m.value[0] != [] && IsSymbolString(m.value[0], t)
  {
    match FirstRun(input, t)
    case None => None
    case Some((a, b)) => Some([input[a..b]])
  }

  /** One match as `detect` keeps it: decoded, or dropped when it does not decode. */
  function DecodedOne(m: string, t: seq<char>): (r: seq<string>)
    requires |t| == 4
    ensures |r| <= 1
  {
    match Decoder.Decode(m, t)
    case Ok(v) => [v]
    case Err(_) => []
  }

  /** What the loop of `detect` collects from `matches`: the decodable ones, decoded, in order. */
  function DecodedRuns(matches: seq<string>, t: seq<char>): (r: seq<string>)
    requires |t| == 4
    ensures |r| <= |matches|
  {
    if matches == [] then []
    else DecodedRuns(matches[..|matches| - 1], t) + DecodedOne(matches[|matches| - 1], t)
  }

  /** The value `detect` returns: the first run, decoded, or nothing. */
  function Detected(input: string, t: seq<char>): (r: seq<string>)
    requires |t| == 4
    ensures |r| <= 1
    ensures FreeOf(input, t) ==> r == []
  {
    match Regex(input, t)
    case None => []
    case Some(matches) => DecodedRuns(matches, t)
  }

  /** `convert_to_js_array`: the strings pushed one by one onto a fresh array. */
  method ConvertToJsArray(input: seq<string>) returns (result: seq<string>)
    ensures result == input
  {
    result := [];
    for i := 0 to |input|
      invariant result == input[..i]
    {
      result := result + [input[i]];
    }
  }

  /** `detect`: decode every match of the regex, dropping the ones that fail. */
  method Detect(input: string, t: seq<char>) returns (found: seq<string>)
    requires |t| == 4
    ensures found == Detected(input, t)
    ensures |found| <= 1
  {
    var matches := Regex(input, t);
    if matches.None? {
      return [];
    }
    var result := matches.value;
    var decoded: seq<string> := [];
    for i := 0 to |result|
      invariant decoded == DecodedRuns(result[..i], t)
    {
      assert result[..i + 1][..i] == result[..i];
      var r := Decoder.Decode(result[i], t);
      if r.Ok? {
        decoded := decoded + [r.value];
      }
    }
    assert result[..|result|] == result;
    found := ConvertToJsArray(decoded);
  }

  /**
   * The intended `detect`: every maximal run, left to right (what a loop of
   * `exec` calls on the "g" regex would visit).
   */
  function AllRuns(s: string, t: seq<char>): (r: seq<string>)
    ensures |r| == 0 <==> FreeOf(s, t)
    ensures forall i :: 0 <= i < |r| ==> r[i] != [] && IsSymbolString(r[i], t)
    decreases |s|
  {
    match FirstRun(s, t)
    case None => []
    case Some((a, b)) =>
      var rest := AllRuns(s[b..], t);
      [s[a..b]] + rest
  }

  /** The intended `detect`: every run decoded, the undecodable ones dropped. */
  function DetectAll(input: string, t: seq<char>): (r: seq<string>)
    requires |t| == 4
    ensures |r| <= |AllRuns(input, t)|
  {
    DecodedRuns(AllRuns(input, t), t)
  }

  // ----- embed: where the payload goes -----

  /** On ASCII text every character is one byte, so `split_at` splits at the character index. */
  lemma {:induction false} SplitAtByteAscii(s: string, mid: nat)
    requires Utf8.IsAscii(s) && mid <= |s|
    ensures SplitAtByte(s, mid) == Some((s[..mid], s[mid..]))
    decreases s
  {
    if mid > 0 {
      assert |Utf8.EncodeChar(s[0])| == 1;
      assert Utf8.IsAscii(s[1..]);
      SplitAtByteAscii(s[1..], mid - 1);
      assert [s[0]] + s[1..][..mid - 1] == s[..mid];
      assert s[1..][mid - 1..] == s[mid..];
    }
  }

  /** At a character boundary `split_at` splits there: after the first `k` characters. */
  lemma {:induction false} SplitAtBoundary(s: string, k: nat)
    requires k <= |s|
    ensures SplitAtByte(s, |Utf8.Encode(s[..k])|) == Some((s[..k], s[k..]))
    decreases k
  {
    PrefixBytes(s, k);
    if k > 0 {
      var a, b := s[1..][..k - 1], s[1..][k - 1..];
      var w := |Utf8.EncodeChar(s[0])|;
      var mid := |Utf8.Encode(s[..k])|;
      assert s != [] && mid != 0 && w <= mid;
      assert mid - w == |Utf8.Encode(a)|;
      assert SplitAtByte(s[1..], mid - w) == Some((a, b)) by {
        SplitAtBoundary(s[1..], k - 1);
      }
      assert [s[0]] + a == s[..k] && b == s[k..];
    }
  }

  /** `split_at(mid)` succeeds exactly when `mid` is the byte length of some prefix. */
  lemma SplitAtByteIff(s: string, mid: nat)
    ensures SplitAtByte(s, mid).Some? <==> exists k :: 0 <= k <= |s| && |Utf8.Encode(s[..k])| == mid
  {
    var r := SplitAtByte(s, mid);
    if r.Some? {
      var k := |r.value.0|;
      assert s[..k] == r.value.0;
    }
    if exists k :: 0 <= k <= |s| && |Utf8.Encode(s[..k])| == mid {
      var k :| 0 <= k <= |s| && |Utf8.Encode(s[..k])| == mid;
      SplitAtBoundary(s, k);
    }
  }

  /** On an ASCII carrier `embed` as written does what it is meant to do. */
  lemma EmbedAsWrittenAscii(text: string, hidden: string, t: seq<char>)
    requires |t| == 4 && Utf8.IsAscii(text)
    ensures EmbedAsWritten(text, hidden, t) == Some(Embed(text, hidden, t))
  {
    SplitAtByteAscii(text, |text| / 2);
  }

  /** `embed("ああ", …)` panics: byte 1 lies inside the three bytes of the first character. */
  lemma EmbedAsWrittenPanics(hidden: string, t: seq<char>)
    requires |t| == 4
    ensures EmbedAsWritten("ああ", hidden, t) == None
  {
    assert |Utf8.EncodeChar('あ')| == 3;
  }

  /**
   * A carrier of one two-byte character and three one-byte ones: `embed` as
   * written splits after one character (two bytes), not after two.
   */
  lemma EmbedAsWrittenTwoByte(c: char, x: char, hidden: string, t: seq<char>)
    requires |t| == 4 && hidden != [] && x !in t
    requires 0x80 <= c as int < 0x800 && x as int < 0x80
    ensures var p := Encoder.Encode(hidden, t);
      EmbedAsWritten([c, x, x, x], hidden, t) == Some([c] + p + [x, x, x]) &&
      Embed([c, x, x, x], hidden, t) == [c, x] + p + [x, x] &&
      EmbedAsWritten([c, x, x, x], hidden, t) != Some(Embed([c, x, x, x], hidden, t))
  {
    var p := Encoder.Encode(hidden, t);
    var s := [c, x, x, x];
    assert |Utf8.EncodeChar(c)| == 2;
    assert s[1..] == [x, x, x];
    assert SplitAtByte([x, x, x], 0) == Some(([], [x, x, x]));
    assert [c] + [] == [c];
    assert SplitAtByte(s, 2) == Some(([c], [x, x, x]));
    assert s[..2] == [c, x] && s[2..] == [x, x];
    assert p[0] in t;
    assert ([c] + p + [x, x, x])[1] == p[0];
    assert ([c, x] + p + [x, x])[1] == x;
  }

  /** The smallest such carrier: "éaaa" gets the payload after 'é', not after "éa". */
  lemma EmbedAsWrittenMisplaced(hidden: string, t: seq<char>)
    requires |t| == 4 && hidden != [] && 'a' !in t
    ensures EmbedAsWritten("éaaa", hidden, t) == Some("é" + Encoder.Encode(hidden, t) + "aaa")
    ensures Embed("éaaa", hidden, t) == "éa" + Encoder.Encode(hidden, t) + "aa"
    ensures EmbedAsWritten("éaaa", hidden, t) != Some(Embed("éaaa", hidden, t))
  {
    EmbedAsWrittenTwoByte('é', 'a', hidden, t);
  }

  /**
   * `embed` splits at the middle character: the first half (the shorter one
   * when the count is odd) goes before the payload, the rest after it.
   */
  lemma EmbedAtMiddle(first: string, last: string, hidden: string, t: seq<char>)
    requires |t| == 4 && (|first| == |last| || |first| + 1 == |last|)
    ensures Embed(first + last, hidden, t) == first + Encoder.Encode(hidden, t) + last
  {
    var s := first + last;
    assert s[..|first|] == first && s[|first|..] == last;
  }

  /** On an ASCII carrier split at its middle, `embed` as written puts the payload there. */
  lemma EmbedAsWrittenAt(first: string, last: string, hidden: string, t: seq<char>)
    requires |t| == 4 && Utf8.IsAscii(first + last)
    requires |first| == |last| || |first| + 1 == |last|
    ensures EmbedAsWritten(first + last, hidden, t) == Some(first + Encoder.Encode(hidden, t) + last)
  {
    EmbedAsWrittenAscii(first + last, hidden, t);
    EmbedAtMiddle(first, last, hidden, t);
  }

  /** `test_embed_non_string`, for any payload: an empty carrier gives the payload alone. */
  lemma EmbedAsWrittenEmpty(hidden: string, t: seq<char>)
    requires |t| == 4
    ensures EmbedAsWritten("", hidden, t) == Some(Encoder.Encode(hidden, t))
  {
    var p := Encoder.Encode(hidden, t);
    assert [] + p + [] == p;
  }

  /**
   * `test_embed_to_1_char`, for any payload and any character: a
   * one-character carrier goes after the payload, since `split_at(0)` never panics.
   */
  lemma EmbedAsWrittenOneChar(c: char, hidden: string, t: seq<char>)
    requires |t| == 4
    ensures EmbedAsWritten([c], hidden, t) == Some(Encoder.Encode(hidden, t) + [c])
  {
    var p := Encoder.Encode(hidden, t);
    assert SplitAtByte([c], 0) == Some(([], [c]));
    assert [] + p + [c] == p + [c];
  }

  // ----- detect: which run is found -----

  /**
   * A run of table characters that follows table-free text and is followed by
   * a non-table character (or the end) is the first match.
   */
  lemma FirstRunOf(before: string, run: string, after: string, t: seq<char>)
    requires FreeOf(before, t) && run != [] && IsSymbolString(run, t)
    requires after == [] || after[0] !in t
    ensures FirstRun(before + run + after, t) == Some((|before|, |before| + |run|))
  {
    var s := before + run + after;
    var a := RunStart(s, t, 0);
    assert s[|before|] == run[0];
    assert forall k :: 0 <= k < |before| ==> s[k] == before[k];
    assert a == |before|;
    var b := RunEnd(s, t, a);
    assert forall k :: |before| <= k < |before| + |run| ==> s[k] == run[k - |before|];
    assert |before| + |run| < |s| ==> s[|before| + |run|] == after[0];
    assert b == |before| + |run|;
  }

  /**
   * `detect` reports the first run decoded, or nothing when it does not
   * decode, whatever follows it: the error is dropped and no later run is
   * looked at.
   */
  lemma DetectRun(before: string, run: string, after: string, t: seq<char>)
    requires |t| == 4 && FreeOf(before, t) && run != [] && IsSymbolString(run, t)
    requires after == [] || after[0] !in t
    ensures Decoder.Decode(run, t).Ok? ==> Detected(before + run + after, t) == [Decoder.Decode(run, t).value]
    ensures Decoder.Decode(run, t).Err? ==> Detected(before + run + after, t) == []
  {
    FirstRunOf(before, run, after, t);
    assert (before + run + after)[|before|..|before| + |run|] == run;
    assert [run][..0] == [];
  }

  /** The same, for a run known to decode to `v`. */
  lemma DetectDecoded(before: string, run: string, after: string, t: seq<char>, v: string)
    requires |t| == 4 && FreeOf(before, t) && run != [] && IsSymbolString(run, t)
    requires after == [] || after[0] !in t
    requires Decoder.Decode(run, t) == Ok(v)
    ensures Detected(before + run + after, t) == [v]
  {
    DetectRun(before, run, after, t);
  }

  /** A payload after table-free text, with no table character right behind it, is detected. */
  lemma DetectEmbedded(before: string, hidden: string, after: string, t: seq<char>)
    requires IsTable(t) && hidden != [] && FreeOf(before, t)
    requires after == [] || after[0] !in t
    ensures Detected(before + Encoder.Encode(hidden, t) + after, t) == [hidden]
  {
    DetectRun(before, Encoder.Encode(hidden, t), after, t);
    Decoder.DecodeEncode(hidden, t);
  }

  /** `detect` finds what `embed` hid, in any carrier free of table characters. */
  lemma DetectEmbed(text: string, hidden: string, t: seq<char>)
    requires IsTable(t) && hidden != [] && FreeOf(text, t)
    ensures Detected(Embed(text, hidden, t), t) == [hidden]
  {
    var c := |text| / 2;
    assert text[..c] + text[c..] == text;
    assert forall k :: 0 <= k < c ==> text[..c][k] == text[k];
    assert c < |text| ==> text[c..][0] == text[c];
    DetectEmbedded(text[..c], hidden, text[c..], t);
  }

  /**
   * `detect` finds what the source's `embed` hid, in any carrier free of
   * table characters where `split_at` does not panic.
   */
  lemma DetectEmbedAsWritten(text: string, hidden: string, t: seq<char>)
    requires IsTable(t) && hidden != [] && FreeOf(text, t)
    requires EmbedAsWritten(text, hidden, t).Some?
    ensures Detected(EmbedAsWritten(text, hidden, t).value, t) == [hidden]
  {
    var (first, last) := SplitAtByte(text, |text| / 2).value;
    assert first + last == text;
    assert forall k :: 0 <= k < |first| ==> first[k] == text[k];
    assert last != [] ==> last[0] == text[|first|];
    DetectEmbedded(first, hidden, last, t);
  }

  /** An empty payload adds nothing, so `detect` finds nothing in a table-free carrier. */
  lemma DetectEmbedEmpty(text: string, t: seq<char>)
    requires |t| == 4 && FreeOf(text, t)
    ensures Detected(Embed(text, "", t), t) == []
    ensures EmbedAsWritten(text, "", t).Some? ==> Detected(EmbedAsWritten(text, "", t).value, t) == []
  {
    assert Encoder.Encode("", t) == [];
    assert text[..|text| / 2] + [] + text[|text| / 2..] == text;
    match SplitAtByte(text, |text| / 2)
    case None =>
    case Some((first, last)) =>
      assert first + [] + last == text;
  }

  /** A run shorter than one byte's four symbols decodes to the empty string, which is reported. */
  lemma DetectShortRun(before: string, c: char, after: string, t: seq<char>)
    requires |t| == 4 && FreeOf(before, t) && c in t
    requires after == [] || after[0] !in t
    ensures Detected(before + [c] + after, t) == [""]
  {
    Decoder.DecodeShort([c], t);
    DetectRun(before, [c], after, t);
  }

  /** `detect` is `DetectAll` cut down to its first run. */
  lemma DetectedFirstOfAll(input: string, t: seq<char>)
    requires |t| == 4 && !FreeOf(input, t)
    ensures Detected(input, t) == DecodedRuns([AllRuns(input, t)[0]], t)
  {
  }

  // ----- the intended detect -----

  /** Decoding a list of runs decodes the head, then the tail. */
  lemma {:induction false} DecodedRunsCons(m: string, ms: seq<string>, t: seq<char>)
    requires |t| == 4
    ensures DecodedRuns([m] + ms, t) == DecodedOne(m, t) + DecodedRuns(ms, t)
    decreases |ms|
  {
    var xs := [m] + ms;
    if ms == [] {
      assert xs == [m] && xs[..0] == [];
    } else {
      var n := |ms| - 1;
      assert xs[..|xs| - 1] == [m] + ms[..n];
      assert xs[|xs| - 1] == ms[n];
      calc {
        DecodedRuns(xs, t);
        DecodedRuns([m] + ms[..n], t) + DecodedOne(ms[n], t);
        { DecodedRunsCons(m, ms[..n], t); }
        DecodedOne(m, t) + DecodedRuns(ms[..n], t) + DecodedOne(ms[n], t);
      }
    }
  }

  /** Every run of `input` lies after the runs of a prefix that ends in a non-table character. */
  lemma AllRunsAfter(before: string, run: string, after: string, t: seq<char>)
    requires FreeOf(before, t) && run != [] && IsSymbolString(run, t)
    requires after == [] || after[0] !in t
    ensures AllRuns(before + run + after, t) == [run] + AllRuns(after, t)
  {
    var s := before + run + after;
    FirstRunOf(before, run, after, t);
    assert s[|before|..|before| + |run|] == run;
    assert s[|before| + |run|..] == after;
  }

  /** The intended `detect` finds a payload and goes on with the text behind it. */
  lemma DetectAllEmbedded(before: string, hidden: string, after: string, t: seq<char>)
    requires IsTable(t) && hidden != [] && FreeOf(before, t)
    requires after == [] || after[0] !in t
    ensures DetectAll(before + Encoder.Encode(hidden, t) + after, t) == [hidden] + DetectAll(after, t)
  {
    var p := Encoder.Encode(hidden, t);
    var rest := AllRuns(after, t);
    assert AllRuns(before + p + after, t) == [p] + rest by {
      AllRunsAfter(before, p, after, t);
    }
    assert DecodedOne(p, t) == [hidden] by {
      Decoder.DecodeEncode(hidden, t);
    }
    DecodedRunsCons(p, rest, t);
  }

  /** Regrouping two payloads and their separator as the lemmas above see them. */
  lemma Regroup(a: string, sep: char, b: string)
    ensures a + [sep] + b == [] + a + ([sep] + b)
    ensures [sep] + b == [sep] + b + []
  {
    assert [] + a == a;
  }

  /**
   * Two payloads separated by one ordinary character: `detect` reports only
   * the first.
   */
  lemma DetectFirstOnly(h1: string, sep: char, h2: string, t: seq<char>)
    requires IsTable(t) && h1 != [] && h2 != [] && sep !in t
    ensures Detected(Encoder.Encode(h1, t) + [sep] + Encoder.Encode(h2, t), t) == [h1]
  {
    var p2 := Encoder.Encode(h2, t);
    Regroup(Encoder.Encode(h1, t), sep, p2);
    DetectEmbedded([], h1, [sep] + p2, t);
  }

  /** The same two payloads: the intended `detect` reports both, in order. */
  lemma DetectAllTwoPayloads(h1: string, sep: char, h2: string, t: seq<char>)
    requires IsTable(t) && h1 != [] && h2 != [] && sep !in t
    ensures DetectAll(Encoder.Encode(h1, t) + [sep] + Encoder.Encode(h2, t), t) == [h1, h2]
  {
    var p1, p2 := Encoder.Encode(h1, t), Encoder.Encode(h2, t);
    var tail := [sep] + p2;
    Regroup(p1, sep, p2);
    assert DetectAll([], t) == [];
    assert DetectAll(tail, t) == [h2] + DetectAll([], t) by {
      DetectAllEmbedded([sep], h2, [], t);
    }
    assert DetectAll(p1 + [sep] + p2, t) == [h1] + DetectAll(tail, t) by {
      DetectAllEmbedded([], h1, tail, t);
    }
    Pair(h1, h2);
  }

  /** A two-element list built one element at a time. */
  lemma Pair(x: string, y: string)
    ensures [x] + ([y] + []) == [x, y]
  {
  }

  // ----- the fixtures of the tests -----

  /** "Hello World!" under the steganography table; one line per input byte. */
  const StegoHello: string :=
    "\U{200C}\U{200B}\U{200D}\U{200B}" +
    "\U{200C}\U{200D}\U{200C}\U{200C}" +
    "\U{200C}\U{200D}\U{2060}\U{200B}" +
    "\U{200C}\U{200D}\U{2060}\U{200B}" +
    "\U{200C}\U{200D}\U{2060}\U{2060}" +
    "\U{200B}\U{200D}\U{200B}\U{200B}" +
    "\U{200C}\U{200C}\U{200C}\U{2060}" +
    "\U{200C}\U{200D}\U{2060}\U{2060}" +
    "\U{200C}\U{2060}\U{200B}\U{200D}" +
    "\U{200C}\U{200D}\U{2060}\U{200B}" +
    "\U{200C}\U{200D}\U{200C}\U{200B}" +
    "\U{200B}\U{200D}\U{200B}\U{200C}"

  /** The payload every steganography test hides. */
  lemma StegoPayload()
    ensures Encoder.Encode(HelloText, StegoTable) == StegoHello
  {
    Encoder.EncodeHello(StegoTable);
  }

  /** `test_embed`: "foo bar" carries the payload after "foo". */
  lemma EmbedFooBarFixture()
    ensures EmbedAsWritten("foo bar", HelloText, StegoTable) == Some("foo" + StegoHello + " bar")
  {
    assert "foo" + " bar" == "foo bar";
    EmbedAsWrittenAt("foo", " bar", HelloText, StegoTable);
    StegoPayload();
  }

  /** `test_embed_non_string`: an empty carrier gives the payload alone. */
  lemma EmbedEmptyFixture()
    ensures EmbedAsWritten("", HelloText, StegoTable) == Some(StegoHello)
  {
    EmbedAsWrittenEmpty(HelloText, StegoTable);
    StegoPayload();
  }

  /** `test_embed_to_1_char`: "a" goes after the payload. */
  lemma EmbedOneCharFixture()
    ensures EmbedAsWritten("a", HelloText, StegoTable) == Some(StegoHello + "a")
  {
    EmbedAsWrittenOneChar('a', HelloText, StegoTable);
    StegoPayload();
  }

  /** `test_embed_to_3_char`: "a" before the payload, "bc" after it. */
  lemma EmbedThreeCharsFixture()
    ensures EmbedAsWritten("abc", HelloText, StegoTable) == Some("a" + StegoHello + "bc")
  {
    assert "a" + "bc" == "abc";
    EmbedAsWrittenAt("a", "bc", HelloText, StegoTable);
    StegoPayload();
  }

  /** The test payload decodes back under the steganography table. */
  lemma DecodeStegoHello()
    ensures StegoHello != [] && IsSymbolString(StegoHello, StegoTable)
    ensures Decoder.Decode(StegoHello, StegoTable) == Ok(HelloText)
  {
    FixtureTables();
    StegoPayload();
    Decoder.DecodeEncode(HelloText, StegoTable);
  }

  /** The carrier of `test_detect` has no table character where it matters. */
  lemma DetectCarrier()
    ensures FreeOf("hou are", StegoTable) && " you"[0] !in StegoTable
  {
  }

  /** `test_detect`: the payload between "hou are" and " you" is found. */
  lemma DetectFixture()
    ensures Detected("hou are" + StegoHello + " you", StegoTable) == [HelloText]
  {
    DecodeStegoHello();
    DetectCarrier();
    DetectDecoded("hou are", StegoHello, " you", StegoTable, HelloText);
  }
}
