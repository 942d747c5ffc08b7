/** The decoder on any input, valid or corrupt: its widths, and exactly when it throws. */
module LzAnyInput {
  import opened Bits
  import opened Bytes
  import opened LzSpec
  import opened LzRoundTrip
  import opened LzWrappers
  import opened Option

  lemma StepKeepsWidth(bits: seq<bool>, p: nat, d: Dec)
    requires WidthFits(d.width, d.dictSize)
    ensures var r := DecStep(bits, p, d); r.Next? ==> WidthFits(r.state.width, r.state.dictSize)
  {
    hide Tick, ReadAt, WidthFits, Lookup;
    TickFits(d.width, d.dictSize);
    TickFits(Tick(d.width), d.dictSize + 1);
  }

  lemma {:induction false} WidthFrom(bits: seq<bool>, p: nat, d: Dec, q: nat)
    requires DecStateAt(bits, p, d, q).Some? && WidthFits(d.width, d.dictSize)
    ensures var d' := DecStateAt(bits, p, d, q).value; WidthFits(d'.width, d'.dictSize)
    decreases q - p
  {
    hide DecStep, WidthFits;
    if p != q {
      StepKeepsWidth(bits, p, d);
      var r := DecStep(bits, p, d);
      WidthFrom(bits, r.pos, r.state, q);
    }
  }

  /** On any input, valid or corrupt, the decoder's dictionary size and countdown add up to 2^numBits
      whenever it is about to read a token. */
  lemma DecoderWidth(bits: seq<bool>, first: Option<Text>, p: nat, q: nat)
    requires DecStateAt(bits, p, DecInit(first), q).Some?
    ensures var d := DecStateAt(bits, p, DecInit(first), q).value;
            d.dictSize + d.width.enlargeIn == Pow2(d.width.numBits) && d.width.enlargeIn >= 1
  {
    Pow2Values();
    WidthFrom(bits, p, DecInit(first), q);
  }

  lemma {:induction false} LoopThrowsNot(bits: seq<bool>, p: nat, d: Dec)
    requires d.width.numBits > 0 && d.w.Some?
    ensures DecLoop(bits, p, d) != Throws
    decreases |bits| - p
  {
    var r := DecStep(bits, p, d);
    DecStepProgress(bits, p, d);
    if r.Next? { LoopThrowsNot(bits, r.pos, r.state); }
  }

  // ---- How a run ends ---------------------------------------------------------------------------

  /** The decoder knows the codes from 3 on, without 3 when there was no first phrase, and the
      previous phrase is missing only before its first step. */
  ghost predicate Known(d: Dec, first: Option<Text>) {
    && d.width.numBits > 0 && d.dictSize >= 4
    && (forall k: nat :: k in d.dictionary <==> 3 <= k < d.dictSize && (k == 3 ==> first.Some?))
    && (d.w.None? ==> d == DecInit(None) && first.None?)
  }

  lemma StepKeepsKnown(bits: seq<bool>, p: nat, d: Dec, first: Option<Text>)
    requires Known(d, first)
    ensures var r := DecStep(bits, p, d); r.Next? ==> Known(r.state, first)
  {
    hide ReadAt, Known, Accept, Introduce;
    var n := d.width.numBits;
    AcceptKeepsKnown(d, d, ReadAt(bits, p, n), p + n, first);
    forall c: CodeUnit, pos
      ensures var r := Accept(Introduce(d, c), d.dictSize, pos); r.Next? ==> Known(r.state, first)
    {
      IntroduceKeepsKnown(d, c, first);
      AcceptKeepsKnown(d, Introduce(d, c), d.dictSize, pos, first);
    }
  }

  /** Known but for the previous phrase, which may still be missing. */
  ghost predicate HasCodes(d: Dec, first: Option<Text>) {
    && d.width.numBits > 0 && d.dictSize >= 4
    && forall k: nat :: k in d.dictionary <==> 3 <= k < d.dictSize && (k == 3 ==> first.Some?)
  }

  lemma IntroduceKeepsKnown(d: Dec, c: CodeUnit, first: Option<Text>)
    requires Known(d, first)
    ensures HasCodes(Introduce(d, c), first)
  {
  }

  lemma AcceptKeepsKnown(before: Dec, d: Dec, code: nat, pos: nat, first: Option<Text>)
    requires Known(before, first) && (d == before || HasCodes(d, first))
    ensures var r := Accept(d, code, pos); r.Next? ==> Known(r.state, first)
  {
    hide Lookup, AsText, CharAt0;
  }

  /** What an iteration that does not continue yields: the empty text when the input has run out, the
      collected text at the marker 2, an exception for the code of a missing phrase, and null for
      any other code that is not in use. */
  lemma StepEnds(bits: seq<bool>, p: nat, d: Dec, first: Option<Text>)
    requires Known(d, first)
    ensures var c := ReadAt(bits, p, d.width.numBits);
            DecStep(bits, p, d).Done? ==>
              && DecStep(bits, p, d).outcome == Ending(bits, p, d)
              && (p < |bits| ==> c == 2 || c > d.dictSize || (first.None? && (c == 3 || (d.w.None? && c == 4))))
  {
    hide ReadAt;
  }

  ghost function Ending(bits: seq<bool>, p: nat, d: Dec): Outcome {
    var c := ReadAt(bits, p, d.width.numBits);
    if p >= |bits| then Value([])
    else if c == 2 then Value(d.result)
    else if d.w.None? && c == 4 then Throws
    else Null
  }

  /** Every run reaches such an iteration, and what it yields is the result. */
  lemma {:induction false} LoopEnds(bits: seq<bool>, p: nat, d: Dec, first: Option<Text>) returns (q: nat, last: Dec)
    requires Known(d, first)
    ensures DecStateAt(bits, p, d, q) == Some(last) && Known(last, first)
    ensures DecStep(bits, q, last).Done? && DecLoop(bits, p, d) == Ending(bits, q, last)
    decreases |bits| - p
  {
    hide DecStep, Known, Ending;
    assert d.width.numBits > 0 by { KnownWidth(d, first); }
    var r := DecStep(bits, p, d);
    DecStepProgress(bits, p, d);
    if r.Next? {
      StepKeepsKnown(bits, p, d, first);
      q, last := LoopEnds(bits, r.pos, r.state, first);
      StateOrder(bits, r.pos, r.state, q);
    } else {
      StepEnds(bits, p, d, first);
      q, last := p, d;
    }
  }

  lemma KnownWidth(d: Dec, first: Option<Text>)
    requires Known(d, first)
    ensures d.width.numBits > 0
  {
  }

  lemma StateOrder(bits: seq<bool>, p: nat, d: Dec, q: nat)
    requires DecStateAt(bits, p, d, q).Some?
    ensures p <= q
  {
  }

  /** The first token decides where the loop starts and what the first phrase is. */
  ghost function LoopStart(bits: seq<bool>): nat {
    match ReadAt(bits, 0, 2)
    case 0 => 10
    case 1 => 18
    case _ => 2
  }

  ghost function FirstPhrase(bits: seq<bool>): Option<Text> {
    match ReadAt(bits, 0, 2)
    case 0 => Some([ReadAt(bits, 2, 8) % 65536])
    case 1 => Some([ReadAt(bits, 2, 16) % 65536])
    case _ => None
  }

  /** The loop is about to read at position `q` in state `d`. */
  ghost predicate Reached(bits: seq<bool>, q: nat, d: Dec) {
    DecStateAt(bits, LoopStart(bits), DecInit(FirstPhrase(bits)), q) == Some(d)
  }

  lemma StartsLoop(bits: seq<bool>)
    ensures ReadAt(bits, 0, 2) < 4 && Known(DecInit(FirstPhrase(bits)), FirstPhrase(bits))
    ensures DecInit(FirstPhrase(bits)).width.numBits > 0
    ensures DecompressBits(bits) == if ReadAt(bits, 0, 2) == 2 then Value([])
                                    else DecLoop(bits, LoopStart(bits), DecInit(FirstPhrase(bits)))
  {
    hide ReadAt, DecLoop;
    assert ReadAt(bits, 0, 2) < 4 by { Pow2Values(); }
  }

  /** Every input but a first token 2 leads to a last iteration, and that decides the outcome. */
  lemma Outcomes(bits: seq<bool>) returns (q: nat, last: Dec)
    ensures ReadAt(bits, 0, 2) == 2 ==> DecompressBits(bits) == Value([])
    ensures ReadAt(bits, 0, 2) != 2 ==>
              && Reached(bits, q, last) && Known(last, FirstPhrase(bits)) && DecStep(bits, q, last).Done?
              && DecompressBits(bits) == Ending(bits, q, last)
  {
    hide *;
    StartsLoop(bits);
    q, last := 0, DecInit(None);
    if ReadAt(bits, 0, 2) != 2 {
      q, last := LoopEnds(bits, LoopStart(bits), DecInit(FirstPhrase(bits)), FirstPhrase(bits));
      ReachedIs(bits, q, last);
    }
  }

  lemma ReachedIs(bits: seq<bool>, q: nat, d: Dec)
    ensures Reached(bits, q, d) <==> DecStateAt(bits, LoopStart(bits), DecInit(FirstPhrase(bits)), q) == Some(d)
  {
  }

  /** The loop goes on as from any state it has reached. */
  lemma {:induction false} LoopFrom(bits: seq<bool>, p: nat, d: Dec, q: nat, first: Option<Text>) returns (d': Dec)
    requires Known(d, first) && DecStateAt(bits, p, d, q).Some?
    ensures DecStateAt(bits, p, d, q) == Some(d') && Known(d', first)
    ensures d.width.numBits > 0 && d'.width.numBits > 0 && DecLoop(bits, p, d) == DecLoop(bits, q, d')
    decreases q - p
  {
    hide DecStep;
    if p == q {
      d' := d;
    } else {
      var r := DecStep(bits, p, d);
      DecStepProgress(bits, p, d);
      StepKeepsKnown(bits, p, d, first);
      d' := LoopFrom(bits, r.pos, r.state, q, first);
    }
  }

  ghost predicate Unknown(bits: seq<bool>, q: nat, d: Dec) {
    q < |bits|
    && (ReadAt(bits, q, d.width.numBits) > d.dictSize
        || (ReadAt(bits, 0, 2) == 3 && ReadAt(bits, q, d.width.numBits) == 3))
  }

  lemma UnknownIsNull(bits: seq<bool>, q: nat, d: Dec)
    requires Known(d, FirstPhrase(bits)) && Unknown(bits, q, d)
    ensures DecLoop(bits, q, d) == Null
  {
    hide ReadAt;
  }

  lemma NullIsUnknown(bits: seq<bool>, q: nat, d: Dec)
    requires Known(d, FirstPhrase(bits)) && DecStep(bits, q, d).Done? && Ending(bits, q, d) == Null
    requires ReadAt(bits, 0, 2) < 4 && ReadAt(bits, 0, 2) != 2
    ensures Unknown(bits, q, d)
  {
    hide ReadAt, DecStep;
    StepEnds(bits, q, d, FirstPhrase(bits));
  }

  /** Null if and only if the loop comes to read a code above the next free one, or 3 after a first
      token 3. */
  lemma NullExactly(bits: seq<bool>)
    ensures DecompressBits(bits) == Null <==>
            ReadAt(bits, 0, 2) != 2 && exists q, d :: Reached(bits, q, d) && Unknown(bits, q, d)
  {
    hide *;
    StartsLoop(bits);
    var q, last := Outcomes(bits);
    if DecompressBits(bits) == Null {
      NullIsUnknown(bits, q, last);
    } else if ReadAt(bits, 0, 2) != 2 {
      forall q: nat, d | Reached(bits, q, d)
        ensures !Unknown(bits, q, d)
      {
        ReachedIs(bits, q, d);
        var d' := LoopFrom(bits, LoopStart(bits), DecInit(FirstPhrase(bits)), q, FirstPhrase(bits));
        if Unknown(bits, q, d) { UnknownIsNull(bits, q, d); }
      }
    }
  }

  /** Running out of input gives the empty text, whatever has been collected. */
  lemma RunsOut(bits: seq<bool>, q: nat, d: Dec)
    requires ReadAt(bits, 0, 2) != 2 && Reached(bits, q, d) && q >= |bits|
    ensures DecompressBits(bits) == Value([])
  {
    hide DecStep, Reached, Known, DecStateAt;
    StartsLoop(bits);
    ReachedIs(bits, q, d);
    var d' := LoopFrom(bits, LoopStart(bits), DecInit(FirstPhrase(bits)), q, FirstPhrase(bits));
    PastEndStops(bits, q, d);
  }

  lemma PastEndStops(bits: seq<bool>, q: nat, d: Dec)
    requires q >= |bits| && d.width.numBits > 0
    ensures DecLoop(bits, q, d) == Value([])
  {
  }

  /** A missing first phrase enters later phrases under its name in JavaScript. */
  lemma UndefinedByName()
    ensures |AsText(None)| == 9
    ensures forall i :: 0 <= i < 9 ==> AsText(None)[i] == "undefined"[i] as int
  {
  }

  // ---- A missing first phrase ---------------------------------------------------------------

  /** The decoder throws exactly when the first token is 3, which leaves the previous phrase
      undefined, and the first code is 4, which asks for that phrase. */
  lemma ThrowsExactly(bits: seq<bool>)
    ensures DecompressBits(bits) == Throws <==> ReadAt(bits, 0, 2) == 3 && ReadAt(bits, 2, 3) == 4
  {
    hide DecLoop, ReadAt, DecInit, Pow2;
    assert ReadAt(bits, 0, 2) < 4 by { Pow2Values(); }
    ThrowsNotAfter([FromCharCode(ReadAt(bits, 2, 8))], bits, 10);
    ThrowsNotAfter([FromCharCode(ReadAt(bits, 2, 16))], bits, 18);
    ThrowsWithout(bits);
  }

  lemma ThrowsNotAfter(first: Text, bits: seq<bool>, p: nat)
    ensures DecInit(Some(first)).width.numBits > 0 && DecLoop(bits, p, DecInit(Some(first))) != Throws
  {
    LoopThrowsNot(bits, p, DecInit(Some(first)));
  }

  lemma ThrowsWithout(bits: seq<bool>)
    ensures DecInit(None).width.numBits > 0
    ensures DecLoop(bits, 2, DecInit(None)) == Throws <==> ReadAt(bits, 2, 3) == 4
  {
    hide ReadAt;
    var r := DecStep(bits, 2, DecInit(None));
    PastEndIsZero(bits);
    if r.Next? {
      DecStepProgress(bits, 2, DecInit(None));
      LoopThrowsNot(bits, r.pos, r.state);
    }
  }

  lemma PastEndIsZero(bits: seq<bool>)
    ensures ReadAt(bits, 2, 3) != 0 ==> 2 < |bits|
  {
    ReadThree(bits, 2);
  }

  // ---- The condition on the first character -------------------------------------------------

  function BitAt(bits: seq<bool>, p: nat): bool {
    p < |bits| && bits[p]
  }

  lemma ReadTwo(bits: seq<bool>, p: nat)
    ensures ReadAt(bits, p, 2) == BitValue(BitAt(bits, p)) + 2 * BitValue(BitAt(bits, p + 1))
  {
    hide BitValue, Pow2, LsbValue;
    var w := Window(bits, p, 2);
    assert w == [BitAt(bits, p), BitAt(bits, p + 1)];
    LsbValueStep(w);
    LsbValueStep(w[1..]);
    LsbValueStep(w[1..][1..]);
  }

  lemma ReadThree(bits: seq<bool>, p: nat)
    ensures ReadAt(bits, p, 3) ==
            BitValue(BitAt(bits, p)) + 2 * BitValue(BitAt(bits, p + 1)) + 4 * BitValue(BitAt(bits, p + 2))
  {
    hide BitValue, Pow2, LsbValue;
    var w := Window(bits, p, 3);
    ReadTwo(bits, p + 1);
    LsbValueStep(w);
    assert w[1..] == Window(bits, p + 1, 2);
  }

  /** The five bits that a character of `width` bits begins with, as a number. */
  function TopFive(v: int, width: nat): int
    requires width >= 5
  {
    v / Pow2(width - 5) % 32
  }

  lemma TopFiveBits(v: int, width: nat)
    requires width >= 5
    ensures TopFive(v, width) == 25 <==>
            Bit(v, width - 1) && Bit(v, width - 2) && !Bit(v, width - 3) && !Bit(v, width - 4) && Bit(v, width - 5)
  {
    hide Bit, Pow2;
    BitOfQuotient(v, width - 5, 4);
    BitOfQuotient(v, width - 5, 3);
    BitOfQuotient(v, width - 5, 2);
    BitOfQuotient(v, width - 5, 1);
    BitOfQuotient(v, width - 5, 0);
    FiveBits(v / Pow2(width - 5));
  }

  lemma FiveBits(u: int)
    ensures u % 32 == 25 <==> Bit(u, 4) && Bit(u, 3) && !Bit(u, 2) && !Bit(u, 1) && Bit(u, 0)
  {
    hide *;
    FirstBit(u, 4);
    FirstBit(u / 2, 3);
    FirstBit(u / 2 / 2, 2);
    FirstBit(u / 2 / 2 / 2, 1);
    FirstBit(u / 2 / 2 / 2 / 2, 0);
    HalfRemainder(u, 16);
    HalfRemainder(u / 2, 8);
    HalfRemainder(u / 2 / 2, 4);
    HalfRemainder(u / 2 / 2 / 2, 2);
  }

  lemma FirstBit(v: int, k: nat)
    ensures Bit(v, 0) <==> v % 2 == 1
    ensures k > 0 ==> Bit(v, k) == Bit(v / 2, k - 1)
    ensures k > 1 ==> Bit(v, k - 1) == Bit(v / 2, k - 2)
    ensures k > 2 ==> Bit(v, k - 2) == Bit(v / 2, k - 3)
    ensures k > 3 ==> Bit(v, k - 3) == Bit(v / 2, k - 4)
  {
  }

  lemma FrontBit(chars: seq<int>, width: nat, k: nat)
    requires k < width
    ensures BitAt(Unpack(chars, width), k) == (chars != [] && Bit(chars[0], width - 1 - k))
  {
    hide Bit, Unpack;
    if chars == [] {
      UnpackNil(width);
    } else {
      UnpackAt(chars, width, 0, k);
    }
  }

  /** For characters of five or more bits the first one decides. */
  lemma ThrowsOnFirst(chars: seq<int>, width: nat)
    requires width >= 5
    ensures DecompressSpec(chars, width) == Throws <==> chars != [] && TopFive(chars[0], width) == 25
  {
    hide DecompressBits, ReadAt, Bit, Unpack, BitAt, TopFive;
    var bits := Unpack(chars, width);
    ThrowsExactly(bits);
    ReadTwo(bits, 0);
    ReadThree(bits, 2);
    FrontBit(chars, width, 0);
    FrontBit(chars, width, 1);
    FrontBit(chars, width, 2);
    FrontBit(chars, width, 3);
    FrontBit(chars, width, 4);
    if chars != [] { TopFiveBits(chars[0], width); }
  }

  // ---- At the entry points -----------------------------------------------------------------------

  const LOWER_Y: CodeUnit := 121
  const LOWER_Z: CodeUnit := 122

  lemma ValueOfYAndZ(key: Text, c: CodeUnit)
    requires key == KEY_BASE64 || key == KEY_URI_SAFE
    ensures GetBaseValue(key, c) / 2 % 32 == 25 <==> c == LOWER_Y || c == LOWER_Z
  {
    hide GetBaseValue, Distinct;
    KeysDistinct();
    AlphanumericAt();
    assert key[50] == ALPHANUMERIC[50] == LOWER_Y && key[51] == ALPHANUMERIC[51] == LOWER_Z;
    BaseValueOf(key, 50);
    BaseValueOf(key, 51);
    ValueInAlphabet(key, c);
  }

  lemma {:induction false} ValueInAlphabet(alphabet: Text, c: CodeUnit)
    ensures GetBaseValue(alphabet, c) == 0 || (GetBaseValue(alphabet, c) < |alphabet| && alphabet[GetBaseValue(alphabet, c)] == c)
    decreases |alphabet|
  {
    if alphabet != [] { ValueInAlphabet(alphabet[..|alphabet| - 1], c); }
  }

  /** Base64 text makes the decoder throw if and only if it begins with y or z. */
  lemma Base64Throws(input: Option<Text>)
    ensures DecompressFromBase64(input) == Throws <==>
            input.Some? && input.value != [] && input.value[0] in [LOWER_Y, LOWER_Z]
  {
    hide DecompressSpec, GetBaseValue, KEY_BASE64;
    if input.Some? && input.value != [] {
      ThrowsOnFirst(ValuesOf(input.value, KEY_BASE64), 6);
      ValueOfYAndZ(KEY_BASE64, input.value[0]);
      TopFiveOf(GetBaseValue(KEY_BASE64, input.value[0]));
    }
  }

  lemma TopFiveOf(v: int)
    ensures TopFive(v, 6) == v / 2 % 32 && TopFive(v, 15) == v / 1024 % 32 && TopFive(v, 16) == v / 2048 % 32
  {
    hide Pow2;
    Powers();
  }

  lemma Powers()
    ensures Pow2(1) == 2 && Pow2(10) == 1024 && Pow2(11) == 2048
  {
    assert Pow2(4) == 16;
    assert Pow2(7) == 8 * Pow2(4);
    assert Pow2(10) == 8 * Pow2(7);
  }

  /** So does text in the form for URIs. */
  lemma EncodedURIComponentThrows(input: Option<Text>)
    ensures DecompressFromEncodedURIComponent(input) == Throws <==>
            input.Some? && input.value != [] && input.value[0] in [LOWER_Y, LOWER_Z]
  {
    hide DecompressSpec, GetBaseValue, KEY_URI_SAFE;
    if input.Some? && input.value != [] {
      var plain := SpacesToPlus(input.value);
      ThrowsOnFirst(ValuesOf(plain, KEY_URI_SAFE), 6);
      ValueOfYAndZ(KEY_URI_SAFE, plain[0]);
      TopFiveOf(GetBaseValue(KEY_URI_SAFE, plain[0]));
    }
  }

  /** UTF-16 text does if and only if its first character lies in one of two ranges. */
  lemma UTF16Throws(input: Option<Text>)
    ensures DecompressFromUTF16(input) == Throws <==>
            input.Some? && input.value != []
            && (25632 <= input.value[0] < 26656 || 58400 <= input.value[0] < 59424)
  {
    hide DecompressSpec, TopFive;
    if input.Some? && input.value != [] {
      var text := input.value;
      ThrowsOnFirst(OffsetValues(text), 15);
      TopFiveOf(text[0] as int - 32);
    }
  }

  /** So does a plain compressed string, and so do bytes of even number. */
  lemma PlainThrows(input: Option<Text>)
    ensures Decompress16(input) == Throws <==>
            input.Some? && input.value != [] && 51200 <= input.value[0] < 53248
  {
    hide DecompressSpec, TopFive;
    if input.Some? && input.value != [] {
      ThrowsOnFirst(input.value, 16);
      TopFiveOf(input.value[0]);
    }
  }

  lemma BytesThrow(b: seq<Byte>)
    requires |b| % 2 == 0
    ensures Decompress16(Some(UnitsOf(b))) == Throws <==> b != [] && 200 <= b[0] < 208
  {
    hide Decompress16, UnitsOf;
    PlainThrows(Some(UnitsOf(b)));
    FirstUnit(b);
  }

  lemma {:induction false} FirstUnit(b: seq<Byte>)
    requires |b| % 2 == 0
    ensures |UnitsOf(b)| == |b| / 2 && (b != [] ==> UnitsOf(b)[0] == b[0] as int * 256 + b[1] as int)
    decreases |b|
  {
    if |b| > 2 { FirstUnit(b[..|b| - 2]); }
  }
}
