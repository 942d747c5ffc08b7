/** The public entry points of lz-string.js: how compressed values become characters or bytes and
    back. A null argument or result is None or Null. */
module LzWrappers {
  import opened Bits
  import opened Bytes
  import opened LzSpec
  import opened Option
  import opened LzRoundTrip

  /** A-Z, a-z, 0-9 and +, then the last two characters of each alphabet. */
  const ALPHANUMERIC: Text := Span('A', 26) + Span('a', 26) + Span('0', 10) + [PLUS]
  const KEY_BASE64: Text := ALPHANUMERIC + [Unit('/'), EQUALS]
  const KEY_URI_SAFE: Text := ALPHANUMERIC + [Unit('-'), Unit('$')]

  const SPACE: CodeUnit := 32
  const PLUS: CodeUnit := 43
  const EQUALS: CodeUnit := 61

  function Unit(c: char): CodeUnit {
    c as int % 65536
  }

  /** `n` consecutive characters. */
  function Span(first: char, n: nat): (r: Text)
    ensures |r| == n
  {
    seq(n, i requires 0 <= i < n => (first as int + i) % 65536)
  }

  /** The reverse table of an alphabet, filled from left to right. */
  function BaseTable(alphabet: Text): map<CodeUnit, nat> {
    if alphabet == [] then map[]
    else
      var n := |alphabet| - 1;
      BaseTable(alphabet[..n])[alphabet[n] := n]
  }

  /** A character outside the alphabet reads as 0 in bit operations. */
  function GetBaseValue(alphabet: Text, c: CodeUnit): nat {
    if c in BaseTable(alphabet) then BaseTable(alphabet)[c] else 0
  }

  ghost predicate Distinct(t: Text) {
    forall i, j :: 0 <= i < j < |t| ==> t[i] != t[j]
  }

  lemma {:induction false} BaseValueOf(alphabet: Text, i: nat)
    requires Distinct(alphabet) && i < |alphabet|
    ensures GetBaseValue(alphabet, alphabet[i]) == i
    decreases |alphabet|
  {
    var n := |alphabet| - 1;
    if i < n {
      BaseValueOf(alphabet[..n], i);
      BaseTableHas(alphabet[..n], i);
    }
  }

  lemma {:induction false} BaseTableHas(alphabet: Text, i: nat)
    requires i < |alphabet|
    ensures alphabet[i] in BaseTable(alphabet)
    decreases |alphabet|
  {
    var n := |alphabet| - 1;
    if i < n { BaseTableHas(alphabet[..n], i); }
  }

  /** Where each of the common characters stands. */
  ghost function Letter(i: nat): int {
    if i < 26 then 65 + i else if i < 52 then 71 + i else if i < 62 then i - 4 else 43
  }

  lemma AlphanumericAt()
    ensures |ALPHANUMERIC| == 63
    ensures forall i :: 0 <= i < 63 ==> ALPHANUMERIC[i] == Letter(i)
  {
  }

  lemma KeysDistinct()
    ensures |KEY_BASE64| == |KEY_URI_SAFE| == 65
    ensures Distinct(KEY_BASE64) && Distinct(KEY_URI_SAFE)
    ensures KEY_BASE64[64] == EQUALS && SPACE !in KEY_URI_SAFE
  {
    AlphanumericAt();
  }

  // ---- Shared by all wrappers -------------------------------------------------------------

  lemma CompressNotEmpty(text: Text, bitsPerChar: nat)
    requires bitsPerChar > 0
    ensures CompressSpec(text, bitsPerChar) != []
  {
    var padded := Padded(CompressedBits(text), bitsPerChar);
    ModPrevious(|padded|, bitsPerChar);
  }

  function NullTo(input: Option<Text>): Outcome {
    match input
    case None => Null
    case Some(text) => Value(text)
  }

  // ---- Base64 and URI component -----------------------------------------------------------

  function CharsOf(codes: seq<nat>, key: Text): (r: Text)
    requires |key| == 65 && forall i :: 0 <= i < |codes| ==> codes[i] < 64
    ensures |r| == |codes| && forall i :: 0 <= i < |r| ==> r[i] == key[codes[i]]
  {
    seq(|codes|, i requires 0 <= i < |codes| => key[codes[i]])
  }

  function ValuesOf(input: Text, key: Text): (r: seq<int>)
    ensures |r| == |input| && forall i :: 0 <= i < |r| ==> r[i] == GetBaseValue(key, input[i])
  {
    seq(|input|, i requires 0 <= i < |input| => GetBaseValue(key, input[i]))
  }

  lemma ValuesOfChars(codes: seq<nat>, key: Text, extra: Text)
    requires |key| == 65 && Distinct(key) && forall i :: 0 <= i < |codes| ==> codes[i] < 64
    ensures ValuesOf(CharsOf(codes, key) + extra, key) == codes + ValuesOf(extra, key)
  {
    forall i | 0 <= i < |codes|
      ensures ValuesOf(CharsOf(codes, key) + extra, key)[i] == codes[i]
    {
      BaseValueOf(key, codes[i]);
    }
  }

  /** Six-bit codes. */
  function Codes6(text: Text): (r: seq<nat>)
    ensures forall i :: 0 <= i < |r| ==> r[i] < 64
  {
    Pow2Values();
    CompressSpec(text, 6)
  }

  /** To produce valid Base64. */
  function Base64Padding(length: nat): (r: Text)
    ensures (length + |r|) % 4 == 0 && |r| < 4
  {
    match length % 4
    case 0 => []
    case 1 => [EQUALS, EQUALS, EQUALS]
    case 2 => [EQUALS, EQUALS]
    case _ => [EQUALS]
  }

  function CompressToBase64(input: Option<Text>): Text {
    match input
    case None => []
    case Some(text) =>
      KeysDistinct();
      var res := CharsOf(Codes6(text), KEY_BASE64);
      res + Base64Padding(|res|)
  }

  function DecompressFromBase64(input: Option<Text>): Outcome {
    match input
    case None => Value([])
    case Some(text) =>
      if text == [] then Null else DecompressSpec(ValuesOf(text, KEY_BASE64), 6)
  }

  lemma Base64RoundTrip(input: Option<Text>)
    ensures |CompressToBase64(input)| % 4 == 0
    ensures DecompressFromBase64(Some(CompressToBase64(input))) == NullTo(input)
  {
    hide *;
    if input.Some? {
      var codes := CompressSpec(input.value, 6);
      Base64Is(input.value);
      CompressNotEmpty(input.value, 6);
      Base64Decodes(codes, CompressToBase64(input)[|codes|..]);
      RoundTrip(input.value, 6, ValuesOf(CompressToBase64(input)[|codes|..], KEY_BASE64));
      NullToIs(input.value);
    } else {
      Base64OfNone();
    }
  }

  lemma Base64OfNone()
    ensures CompressToBase64(None) == [] && DecompressFromBase64(Some([])) == NullTo(None)
  {
  }

  lemma Base64Is(text: Text)
    ensures var codes, out := CompressSpec(text, 6), CompressToBase64(Some(text));
            && |KEY_BASE64| == 65 && (forall i :: 0 <= i < |codes| ==> codes[i] < 64)
            && |out| % 4 == 0 && |codes| <= |out| && out == CharsOf(codes, KEY_BASE64) + out[|codes|..]
  {
    hide CompressSpec, CharsOf, KEY_BASE64, Distinct, Base64Padding;
    KeysDistinct();
    var res := CharsOf(Codes6(text), KEY_BASE64);
    assert CompressToBase64(Some(text)) == res + Base64Padding(|res|);
  }

  lemma Base64Decodes(codes: seq<nat>, extra: Text)
    requires |KEY_BASE64| == 65 && codes != [] && forall i :: 0 <= i < |codes| ==> codes[i] < 64
    ensures DecompressFromBase64(Some(CharsOf(codes, KEY_BASE64) + extra)) ==
            DecompressSpec(codes + ValuesOf(extra, KEY_BASE64), 6)
  {
    hide DecompressSpec, ValuesOf, CharsOf, KEY_BASE64, Distinct;
    KeysDistinct();
    ValuesOfChars(codes, KEY_BASE64, extra);
  }

  lemma NullToIs(text: Text)
    ensures NullTo(Some(text)) == Value(text)
  {
  }

  function CompressToEncodedURIComponent(input: Option<Text>): Text {
    match input
    case None => []
    case Some(text) => KeysDistinct(); CharsOf(Codes6(text), KEY_URI_SAFE)
  }

  function SpacesToPlus(t: Text): (r: Text)
    ensures |r| == |t|
  {
    seq(|t|, i requires 0 <= i < |t| => if t[i] == SPACE then PLUS else t[i])
  }

  function DecompressFromEncodedURIComponent(input: Option<Text>): Outcome {
    match input
    case None => Value([])
    case Some(text) =>
      if text == [] then Null else DecompressSpec(ValuesOf(SpacesToPlus(text), KEY_URI_SAFE), 6)
  }

  /** What a transport may make of a text: plus signs can become spaces. */
  ghost predicate Transported(sent: Text, received: Text) {
    && |received| == |sent|
    && forall i :: 0 <= i < |sent| ==> received[i] == sent[i] || (sent[i] == 43 && received[i] == 32)
  }

  lemma EncodedURIComponentRoundTrip(input: Option<Text>, received: Text)
    requires Transported(CompressToEncodedURIComponent(input), received)
    ensures DecompressFromEncodedURIComponent(Some(received)) == NullTo(input)
  {
    if input.Some? {
      hide DecompressSpec, CompressSpec, ValuesOf, KEY_URI_SAFE;
      KeysDistinct();
      var codes := Codes6(input.value);
      var res := CharsOf(codes, KEY_URI_SAFE);
      assert SpacesToPlus(received) == res;
      ValuesOfChars(codes, KEY_URI_SAFE, []);
      assert res + [] == res;
      CompressNotEmpty(input.value, 6);
      RoundTrip(input.value, 6, ValuesOf([], KEY_URI_SAFE));
    }
  }

  // ---- The characters sent ----------------------------------------------------------------

  /** The two alphabets, character by character. */
  lemma KeysAre(i: nat)
    requires i < 63
    ensures KEY_BASE64[i] == KEY_URI_SAFE[i] == Letter(i)
    ensures |KEY_BASE64| == |KEY_URI_SAFE| == 65
    ensures KEY_BASE64[63..] == [47, 61] && KEY_URI_SAFE[63..] == [45, 36]
  {
    AlphanumericAt();
  }

  /** Base64 text is the characters of the codes and at most three equals signs. */
  lemma Base64Form(text: Text)
    ensures var codes, out := CompressSpec(text, 6), CompressToBase64(Some(text));
            && |KEY_BASE64| == 65 && |codes| <= |out| < |codes| + 4 && |out| % 4 == 0
            && (forall i :: 0 <= i < |codes| ==> codes[i] < 64 && out[i] == KEY_BASE64[codes[i]])
            && forall i :: |codes| <= i < |out| ==> out[i] == 61
  {
    hide CompressSpec, KEY_BASE64, Distinct;
    KeysDistinct();
    var res := CharsOf(Codes6(text), KEY_BASE64);
    assert CompressToBase64(Some(text)) == res + Base64Padding(|res|);
  }

  lemma EncodedURIComponentForm(text: Text)
    ensures var codes, out := CompressSpec(text, 6), CompressToEncodedURIComponent(Some(text));
            && |KEY_URI_SAFE| == 65 && |out| == |codes|
            && forall i :: 0 <= i < |codes| ==> codes[i] < 64 && out[i] == KEY_URI_SAFE[codes[i]]
  {
    hide CompressSpec, KEY_URI_SAFE, Distinct;
    KeysDistinct();
  }

  /** UTF-16 text is each code with 32 added, and a space. */
  lemma UTF16Form(text: Text)
    ensures var codes, out := CompressSpec(text, 15), CompressToUTF16(Some(text));
            && |out| == |codes| + 1 && out[|codes|] == 32
            && forall i :: 0 <= i < |codes| ==> codes[i] < 32768 && out[i] == codes[i] + 32
  {
    hide CompressSpec;
  }

  /** Each character is two bytes, the high one first. */
  lemma {:induction false} BytesAt(t: Text, i: nat)
    requires i < |t|
    ensures 2 * i + 1 < |BytesOf(t)| && BytesOf(t)[2 * i] == t[i] / 256 && BytesOf(t)[2 * i + 1] == t[i] % 256
    decreases |t|
  {
    var n := |t| - 1;
    if i < n { BytesAt(t[..n], i); }
  }

  /** A null argument gives the empty text, and the empty text decompresses to null. */
  lemma NullAndEmpty()
    ensures CompressToBase64(None) == CompressToEncodedURIComponent(None) == CompressToUTF16(None) == Compress16(None) == []
    ensures DecompressFromBase64(None) == DecompressFromEncodedURIComponent(None) == Value([])
    ensures DecompressFromUTF16(None) == Decompress16(None) == Value([])
    ensures DecompressFromBase64(Some([])) == DecompressFromEncodedURIComponent(Some([])) == Null
    ensures DecompressFromUTF16(Some([])) == Decompress16(Some([])) == Null
  {
  }

  // ---- UTF-16 -----------------------------------------------------------------------------

  function Codes15(text: Text): (r: seq<nat>)
    ensures forall i :: 0 <= i < |r| ==> r[i] < 32768
  {
    Pow2Values();
    CompressSpec(text, 15)
  }

  function CompressToUTF16(input: Option<Text>): Text {
    match input
    case None => []
    case Some(text) =>
      WithOffset(Codes15(text))
  }

  function DecompressFromUTF16(input: Option<Text>): Outcome {
    match input
    case None => Value([])
    case Some(text) =>
      if text == [] then Null
      else DecompressSpec(OffsetValues(text), 15)
  }

  lemma UTF16RoundTrip(input: Option<Text>)
    ensures DecompressFromUTF16(Some(CompressToUTF16(input))) == NullTo(input)
  {
    if input.Some? {
      hide *;
      Codes15Is(input.value);
      UTF16Is(input.value);
      OffsetBack(Codes15(input.value));
      RoundTrip(input.value, 15, [0]);
      NullToIs(input.value);
    }
  }

  /** 32 more than each code, then a space. */
  function WithOffset(codes: seq<nat>): (r: Text)
    requires forall i :: 0 <= i < |codes| ==> codes[i] < 32768
    ensures |r| == |codes| + 1
  {
    seq(|codes|, i requires 0 <= i < |codes| => codes[i] + 32) + [SPACE]
  }

  function OffsetValues(text: Text): seq<int> {
    seq(|text|, i requires 0 <= i < |text| => text[i] as int - 32)
  }

  lemma OffsetBack(codes: seq<nat>)
    requires forall i :: 0 <= i < |codes| ==> codes[i] < 32768
    ensures OffsetValues(WithOffset(codes)) == codes + [0]
  {
  }

  lemma Codes15Is(text: Text)
    ensures Codes15(text) == CompressSpec(text, 15)
  {
    hide CompressSpec;
  }

  lemma UTF16Is(text: Text)
    ensures CompressToUTF16(Some(text)) == WithOffset(Codes15(text))
    ensures DecompressFromUTF16(Some(CompressToUTF16(Some(text)))) ==
            DecompressSpec(OffsetValues(CompressToUTF16(Some(text))), 15)
  {
    hide DecompressSpec, OffsetValues, Codes15;
  }

  // ---- Plain and bytes --------------------------------------------------------------------

  function Compress16(input: Option<Text>): (r: Text) {
    match input
    case None => []
    case Some(text) =>
      Pow2Values();
      CompressSpec(text, 16)
  }

  function Decompress16(input: Option<Text>): Outcome {
    match input
    case None => Value([])
    case Some(text) => if text == [] then Null else DecompressSpec(text, 16)
  }

  lemma PlainRoundTrip(input: Option<Text>)
    ensures Decompress16(Some(Compress16(input))) == NullTo(input)
  {
    if input.Some? {
      CompressNotEmpty(input.value, 16);
      RoundTrip(input.value, 16, []);
      assert CompressSpec(input.value, 16) + [] == CompressSpec(input.value, 16);
    }
  }

  function HighByte(u: CodeUnit): Byte {
    u / 256
  }

  function LowByte(u: CodeUnit): Byte {
    u % 256
  }

  function UnitOf(high: Byte, low: Byte): CodeUnit {
    high as int * 256 + low as int
  }

  /** Big-endian bytes of the code units. */
  function BytesOf(t: Text): (r: seq<Byte>)
    ensures |r| == 2 * |t| && |r| % 2 == 0
  {
    if t == [] then []
    else
      var n := |t| - 1;
      BytesOf(t[..n]) + [HighByte(t[n]), LowByte(t[n])]
  }

  function UnitsOf(b: seq<Byte>): (r: Text)
    requires |b| % 2 == 0
  {
    if b == [] then []
    else
      var n := |b| - 2;
      UnitsOf(b[..n]) + [UnitOf(b[n], b[n + 1])]
  }

  lemma BytesOfNone()
    ensures BytesOf([]) == []
  {
  }

  lemma BytesOfNext(t: Text, i: nat)
    requires i < |t|
    ensures BytesOf(t[..i + 1]) == BytesOf(t[..i]) + [HighByte(t[i]), LowByte(t[i])]
  {
    assert t[..i + 1][..i] == t[..i];
  }

  method CompressToUint8Array(uncompressed: Option<Text>) returns (buf: array<Byte>)
    ensures buf[..] == BytesOf(Compress16(uncompressed))
  {
    hide *;
    var compressed := Compress16(uncompressed);
    buf := new Byte[|compressed| * 2];
    BytesOfNone();
    for i := 0 to |compressed|
      invariant buf[..2 * i] == BytesOf(compressed[..i])
    {
      buf[2 * i] := HighByte(compressed[i]);
      buf[2 * i + 1] := LowByte(compressed[i]);
      assert buf[..2 * (i + 1)] == buf[..2 * i] + [HighByte(compressed[i]), LowByte(compressed[i])];
      BytesOfNext(compressed, i);
    }
    assert compressed[..|compressed|] == compressed && buf[..buf.Length] == buf[..];
  }

  lemma UnitsOfNone()
    ensures UnitsOf([]) == []
  {
  }

  lemma UnitsOfNext(b: seq<Byte>, i: nat)
    requires 2 * (i + 1) <= |b|
    ensures UnitsOf(b[..2 * (i + 1)]) == UnitsOf(b[..2 * i]) + [UnitOf(b[2 * i], b[2 * i + 1])]
  {
    assert b[..2 * (i + 1)][..2 * i] == b[..2 * i];
  }

  /** An odd number of bytes makes the array constructor throw. */
  method DecompressFromUint8Array(compressed: array?<Byte>) returns (r: Outcome)
    ensures r == if compressed == null then Decompress16(None)
                 else if compressed.Length % 2 == 1 then Throws
                 else Decompress16(Some(UnitsOf(compressed[..])))
  {
    hide *;
    if compressed == null {
      r := Decompress16(None);
      return;
    }
    if compressed.Length % 2 == 1 {
      return Throws;
    }
    UnitsOfNone();
    var result: Text := [];
    for i := 0 to compressed.Length / 2
      invariant result == UnitsOf(compressed[..2 * i])
    {
      result := result + [UnitOf(compressed[2 * i], compressed[2 * i + 1])];
      UnitsOfNext(compressed[..], i);
      assert compressed[..][..2 * i] == compressed[..2 * i] && compressed[..][..2 * (i + 1)] == compressed[..2 * (i + 1)];
    }
    assert compressed[..compressed.Length] == compressed[..];
    r := Decompress16(Some(result));
  }

  lemma {:induction false} UnitsOfBytes(t: Text)
    ensures UnitsOf(BytesOf(t)) == t
    decreases |t|
  {
    if t != [] {
      var n := |t| - 1;
      UnitsOfBytes(t[..n]);
      var b := BytesOf(t);
      assert b[..2 * n] == BytesOf(t[..n]);
      assert UnitOf(HighByte(t[n]), LowByte(t[n])) == t[n];
    }
  }

  lemma Uint8ArrayRoundTrip(input: Option<Text>)
    ensures Decompress16(Some(UnitsOf(BytesOf(Compress16(input))))) == NullTo(input)
  {
    UnitsOfBytes(Compress16(input));
    PlainRoundTrip(input);
  }
}
