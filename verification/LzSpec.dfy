/** The LZ-string coder as functions on bit strings: the encoder character by character, the
    decoder token by token. */
module LzSpec {
  import opened Bits
  import opened Option

  /** JavaScript strings are sequences of 16-bit code units. */
  type CodeUnit = n: nat | n < 65536
  type Text = seq<CodeUnit>

  /** `enlargeIn` counts down the dictionary entries until codes get one bit wider. */
  datatype Width = Width(enlargeIn: nat, numBits: nat)

  function Tick(w: Width): Width {
    if w.enlargeIn == 1 then Width(Pow2(w.numBits), w.numBits + 1)
    else Width(if w.enlargeIn == 0 then 0 else w.enlargeIn - 1, w.numBits)
  }

  // ---- Encoder --------------------------------------------------------------------------

  datatype Enc = Enc(
    dictionary: map<Text, nat>,
    toCreate: set<Text>,
    w: Text,
    width: Width,
    dictSize: nat,
    bits: seq<bool>)

  /** "__proto__": a number assigned to this key of a plain JavaScript object is dropped. */
  const PROTO: Text := [95, 95, 112, 114, 111, 116, 111, 95, 95]

  function WithCode(dictionary: map<Text, nat>, phrase: Text, code: nat): map<Text, nat> {
    if phrase == PROTO then dictionary else dictionary[phrase := code]
  }

  const ENC_INIT := Enc(map[], {}, [], Width(2, 2), 3, [])

  /** A character never seen before gets the next code and is marked for in-line introduction. */
  function Learn(e: Enc, c: CodeUnit): Enc {
    if [c] in e.dictionary then e
    else e.(dictionary := WithCode(e.dictionary, [c], e.dictSize),
            toCreate := e.toCreate + {[c]},
            dictSize := e.dictSize + 1)
  }

  /** The code of a phrase; a missing property reads as 0 in bit operations. */
  function CodeOf(dictionary: map<Text, nat>, w: Text): nat {
    if w in dictionary then dictionary[w] else 0
  }

  function Lead(w: Text): CodeUnit {
    if w == [] then 0 else w[0]
  }

  /** The bits that stand for the current phrase. */
  function Token(e: Enc): seq<bool> {
    if e.w in e.toCreate then
      if Lead(e.w) < 256
      then BitsOf(0, e.width.numBits) + BitsOf(Lead(e.w), 8)
      else BitsOf(1, e.width.numBits) + BitsOf(Lead(e.w), 16)
    else BitsOf(CodeOf(e.dictionary, e.w), e.width.numBits)
  }

  function Emit(e: Enc): Enc {
    e.(bits := e.bits + Token(e),
       width := if e.w in e.toCreate then Tick(Tick(e.width)) else Tick(e.width),
       toCreate := e.toCreate - {e.w})
  }

  function EncStep(e: Enc, c: CodeUnit): Enc {
    var e1 := Learn(e, c);
    var wc := e1.w + [c];
    if wc in e1.dictionary then e1.(w := wc)
    else
      var e2 := Emit(e1);
      e2.(dictionary := WithCode(e2.dictionary, wc, e2.dictSize), dictSize := e2.dictSize + 1, w := [c])
  }

  function EncRun(e: Enc, text: Text): Enc
    decreases |text|
  {
    if text == [] then e else EncRun(EncStep(e, text[0]), text[1..])
  }

  /** The last phrase, if any, and the end marker 2. */
  function EncFinish(e: Enc): seq<bool> {
    var e1 := if e.w != [] then Emit(e) else e;
    e1.bits + BitsOf(2, e1.width.numBits)
  }

  function CompressedBits(text: Text): seq<bool> {
    EncFinish(EncRun(ENC_INIT, text))
  }

  function CompressSpec(text: Text, bitsPerChar: nat): seq<nat>
    requires bitsPerChar > 0
  {
    Pack(Padded(CompressedBits(text), bitsPerChar), bitsPerChar)
  }

  // ---- Decoder --------------------------------------------------------------------------

  /** What a decompression call yields: a string, null, or a thrown TypeError. */
  datatype Outcome = Value(text: Text) | Null | Throws

  /** `dictionary` holds the string entries only: slots 0 to 2 hold numbers that are never read,
      since these codes are markers. `w` is undefined only after an invalid first token. */
  datatype Dec = Dec(dictionary: map<nat, Text>, w: Option<Text>, width: Width, dictSize: nat, result: Text)

  function FromCharCode(n: nat): CodeUnit {
    n % 65536
  }

  function CharAt0(t: Text): Text {
    if t == [] then [] else [t[0]]
  }

  /** An undefined operand of string concatenation contributes its name. */
  function AsText(w: Option<Text>): Text {
    match w
    case Some(t) => t
    case None => [117, 110, 100, 101, 102, 105, 110, 101, 100]
  }

  datatype DecStepResult = Done(outcome: Outcome) | Next(pos: nat, state: Dec)

  function Lookup(d: Dec, code: nat): Outcome {
    if code in d.dictionary then Value(d.dictionary[code])
    else if code != d.dictSize then Null
    else if d.w.None? then Throws
    else Value(d.w.value + CharAt0(d.w.value))
  }

  /** Output the phrase with this code and record the previous phrase extended by one character. */
  function Accept(d: Dec, code: nat, pos: nat): DecStepResult {
    match Lookup(d, code)
    case Value(entry) =>
      Next(pos, Dec(d.dictionary[d.dictSize := AsText(d.w) + CharAt0(entry)],
                    Some(entry), Tick(d.width), d.dictSize + 1, d.result + entry))
    case other => Done(other)
  }

  /** A first-seen character is entered under the next free code. */
  function Introduce(d: Dec, c: CodeUnit): Dec {
    d.(dictionary := d.dictionary[d.dictSize := [c]], dictSize := d.dictSize + 1, width := Tick(d.width))
  }

  function DecStep(bits: seq<bool>, p: nat, d: Dec): DecStepResult {
    if p >= |bits| then Done(Value([]))
    else
      var code := ReadAt(bits, p, d.width.numBits);
      var q := p + d.width.numBits;
      if code == 0 then Accept(Introduce(d, FromCharCode(ReadAt(bits, q, 8))), d.dictSize, q + 8)
      else if code == 1 then Accept(Introduce(d, FromCharCode(ReadAt(bits, q, 16))), d.dictSize, q + 16)
      else if code == 2 then Done(Value(d.result))
      else Accept(d, code, q)
  }

  lemma DecStepProgress(bits: seq<bool>, p: nat, d: Dec)
    requires d.width.numBits > 0
    ensures var r := DecStep(bits, p, d);
            r.Next? ==> r.pos > p && p < |bits| && r.state.width.numBits >= d.width.numBits
  {
  }

  /** Bits still unread bound the number of iterations, whatever the input is. */
  function DecLoop(bits: seq<bool>, p: nat, d: Dec): Outcome
    requires d.width.numBits > 0
    decreases |bits| - p
  {
    match DecStep(bits, p, d)
    case Done(outcome) => outcome
    case Next(q, d') => DecStepProgress(bits, p, d); DecLoop(bits, q, d')
  }

  function DecInit(first: Option<Text>): Dec {
    Dec(if first.Some? then map[3 := first.value] else map[], first, Width(4, 3), 4,
        if first.Some? then first.value else [])
  }

  function DecompressBits(bits: seq<bool>): Outcome {
    var first := ReadAt(bits, 0, 2);
    if first == 0 then DecLoop(bits, 10, DecInit(Some([FromCharCode(ReadAt(bits, 2, 8))])))
    else if first == 1 then DecLoop(bits, 18, DecInit(Some([FromCharCode(ReadAt(bits, 2, 16))])))
    else if first == 2 then Value([])
    else DecLoop(bits, 2, DecInit(None))
  }

  function DecompressSpec(chars: seq<int>, bitsPerChar: nat): Outcome {
    DecompressBits(Unpack(chars, bitsPerChar))
  }
}
