/** The decoder follows the encoder one phrase behind, so decompression inverts compression. */
module LzRoundTrip {
  import opened Bits
  import opened LzSpec
  import opened Option

  /** `dictionary` assigns the codes 3, 4, ... to the phrases of the list, which are distinct but
      for the one phrase that a JavaScript object cannot hold. */
  ghost predicate Indexes(dictionary: map<Text, nat>, phrases: seq<Text>) {
    && (forall i :: 0 <= i < |phrases| && phrases[i] != PROTO ==> phrases[i] in dictionary && dictionary[phrases[i]] == i + 3)
    && PROTO !in dictionary
    && (forall s :: s in dictionary ==> 3 <= dictionary[s] < |phrases| + 3 && phrases[dictionary[s] - 3] == s)
  }

  /** The decoder's table is exactly the list of phrases. */
  ghost predicate Holds(dictionary: map<nat, Text>, phrases: seq<Text>) {
    forall k: nat :: (k in dictionary <==> 3 <= k < |phrases| + 3) && (k in dictionary ==> dictionary[k] == phrases[k - 3])
  }

  /** Every character of every phrase has a code of its own. */
  ghost predicate CharsKnown(dictionary: map<Text, nat>, phrases: seq<Text>) {
    forall i, c :: 0 <= i < |phrases| && c in phrases[i] ==> [c] in dictionary
  }

  ghost predicate Pending(e: Enc) {
    e.w in e.toCreate
  }

  ghost predicate WidthFits(w: Width, dictSize: nat) {
    && w.enlargeIn >= 1
    && w.numBits >= 3
    && dictSize + w.enlargeIn == Pow2(w.numBits)
    && dictSize >= Pow2(w.numBits - 1)
  }

  /** A character waiting for its introduction occurs nowhere else. */
  ghost predicate PendingIsNew(e: Enc, prev: Text, phrases: seq<Text>) {
    Pending(e) ==>
      && |e.w| == 1
      && |phrases| >= 2
      && phrases[|phrases| - 2] == e.w
      && e.w[0] !in prev
      && forall i :: 0 <= i < |phrases| - 2 ==> e.w[0] !in phrases[i]
  }

  /** The phrases the decoder knows when it is about to read the token of `e.w`: all but the
      newest phrase and a pending first-seen character. */
  ghost function KnownCount(e: Enc, phrases: seq<Text>): int {
    |phrases| - 1 - (if Pending(e) then 1 else 0)
  }

  ghost predicate EncoderShape(e: Enc, prev: Text, phrases: seq<Text>) {
    && e.w != [] && prev != [] && phrases != []
    && e.w in e.dictionary
    && e.dictSize == |phrases| + 3
    && Indexes(e.dictionary, phrases)
    && CharsKnown(e.dictionary, phrases)
    && e.toCreate == (if Pending(e) then {e.w} else {})
    && phrases[|phrases| - 1] == prev + [e.w[0]]
    && PendingIsNew(e, prev, phrases)
  }

  /** What relates the two machines whenever the decoder is about to read the token of `e.w`. */
  ghost predicate Lockstep(e: Enc, d: Dec, phrases: seq<Text>) {
    && d.w.Some?
    && EncoderShape(e, d.w.value, phrases)
    && KnownCount(e, phrases) >= 0
    && d.dictSize == KnownCount(e, phrases) + 3
    && Holds(d.dictionary, phrases[..KnownCount(e, phrases)])
    && e.width == d.width
    && WidthFits(d.width, d.dictSize)
  }

  // ---- Reading one token ------------------------------------------------------------------

  ghost predicate Found(bits: seq<bool>, p: nat, token: seq<bool>) {
    p + |token| <= |bits| && bits[p..p + |token|] == token
  }

  lemma FoundParts(bits: seq<bool>, p: nat, a: seq<bool>, b: seq<bool>)
    requires Found(bits, p, a + b)
    ensures Found(bits, p, a) && Found(bits, p + |a|, b)
  {
    var t := bits[p..p + |a + b|];
    assert t[..|a|] == a && t[|a|..] == b;
    assert bits[p..p + |a|] == t[..|a|];
    assert bits[p + |a|..p + |a| + |b|] == t[|a|..];
  }

  lemma TickFits(w: Width, dictSize: nat)
    requires WidthFits(w, dictSize)
    ensures WidthFits(Tick(w), dictSize + 1)
  {
  }

  /** The decoder's state once it has caught up with the encoder's emission of `e.w`. */
  ghost predicate CaughtUp(e: Enc, d: Dec, d': Dec, phrases: seq<Text>) {
    && d'.w == Some(e.w)
    && d'.result == d.result + e.w
    && d'.dictSize == |phrases| + 3
    && Holds(d'.dictionary, phrases)
    && d'.width == Emit(e).width
    && WidthFits(d'.width, d'.dictSize)
  }

  lemma Pow2Values()
    ensures Pow2(2) == 4 && Pow2(3) == 8 && Pow2(6) == 64 && Pow2(8) == 256 && Pow2(15) == 32768 && Pow2(16) == 65536
  {
    assert Pow2(4) == 16;
    assert Pow2(8) == 16 * Pow2(4);
    assert Pow2(12) == 16 * Pow2(8);
    assert Pow2(16) == 16 * Pow2(12);
  }

  lemma Pow2Grows(n: nat)
    requires n >= 3
    ensures Pow2(n) >= 8
  {
    if n > 3 { Pow2Grows(n - 1); } else { Pow2Values(); }
  }

  /** The token of a phrase the decoder has, or is just about to have. */
  lemma ReadKnown(e: Enc, d: Dec, phrases: seq<Text>, bits: seq<bool>, p: nat)
    requires Lockstep(e, d, phrases) && !Pending(e)
    requires Found(bits, p, Token(e)) && |Token(e)| > 0
    ensures var r := DecStep(bits, p, d);
            r.Next? && r.pos == p + |Token(e)| && CaughtUp(e, d, r.state, phrases) && Says(bits, p, e, r.pos)
  {
    hide *;
    KnownSays(e, d, phrases, bits, p);
    TokenOfKnown(e, d, phrases, bits, p);
    var code, pos := e.dictionary[e.w], p + d.width.numBits;
    ReadBack(bits, p, code, d.width.numBits);
    StepOfCode(bits, p, d);
    LookupKnown(e, d, phrases);
    AcceptKnown(e, d, phrases, pos);
  }

  lemma KnownSays(e: Enc, d: Dec, phrases: seq<Text>, bits: seq<bool>, p: nat)
    requires Lockstep(e, d, phrases) && !Pending(e) && Found(bits, p, Token(e))
    ensures Says(bits, p, e, p + |Token(e)|)
  {
    hide CharsKnown, PendingIsNew, Holds, Pow2, BitsOf, Says, Token, Indexes;
    TokenOfKnown(e, d, phrases, bits, p);
    TokenSays(e, bits, p);
  }

  lemma TokenOfKnown(e: Enc, d: Dec, phrases: seq<Text>, bits: seq<bool>, p: nat)
    requires Lockstep(e, d, phrases) && !Pending(e) && Found(bits, p, Token(e))
    ensures e.w in e.dictionary && 3 <= e.dictionary[e.w] < Pow2(d.width.numBits)
    ensures |Token(e)| == d.width.numBits >= 3 && p + d.width.numBits <= |bits|
    ensures bits[p..p + d.width.numBits] == BitsOf(e.dictionary[e.w], d.width.numBits)
  {
    hide CharsKnown, PendingIsNew, Holds, Pow2, BitsOf;
    CodeFits(e, d, phrases);
  }

  lemma StepOfCode(bits: seq<bool>, p: nat, d: Dec)
    requires p < |bits| && ReadAt(bits, p, d.width.numBits) >= 3
    ensures DecStep(bits, p, d) == Accept(d, ReadAt(bits, p, d.width.numBits), p + d.width.numBits)
  {
    hide ReadAt, Accept;
  }

  /** A phrase the decoder has under its code, or the newest one, which starts with the same character. */
  lemma LookupKnown(e: Enc, d: Dec, phrases: seq<Text>)
    requires Lockstep(e, d, phrases) && !Pending(e)
    ensures e.w in e.dictionary && Lookup(d, e.dictionary[e.w]) == Value(e.w)
  {
    hide CharsKnown, PendingIsNew, WidthFits;
    var code, last := e.dictionary[e.w], |phrases| - 1;
    assert phrases[code - 3] == e.w;
    if code == d.dictSize {
      assert e.w == phrases[last] == d.w.value + [e.w[0]];
      assert e.w[0] == d.w.value[0];
    } else {
      assert d.dictionary[code] == phrases[..last][code - 3];
    }
  }

  lemma AcceptKnown(e: Enc, d: Dec, phrases: seq<Text>, pos: nat)
    requires Lockstep(e, d, phrases) && !Pending(e) && e.w in e.dictionary
    requires Lookup(d, e.dictionary[e.w]) == Value(e.w)
    ensures var r := Accept(d, e.dictionary[e.w], pos);
            r.Next? && r.pos == pos && CaughtUp(e, d, r.state, phrases)
  {
    hide CharsKnown, PendingIsNew, Holds, Indexes, Lookup, WidthFits;
    TickFits(d.width, d.dictSize);
    var last := |phrases| - 1;
    assert CharAt0(e.w) == [e.w[0]];
    HoldsSnoc(d.dictionary, phrases[..last], phrases[last]);
    assert phrases[..last] + [phrases[last]] == phrases;
  }

  lemma HoldsSnoc(dictionary: map<nat, Text>, phrases: seq<Text>, s: Text)
    requires Holds(dictionary, phrases)
    ensures Holds(dictionary[|phrases| + 3 := s], phrases + [s])
  {
  }

  lemma ReadCodeThenChar(bits: seq<bool>, p: nat, marker: nat, m: nat, c: nat, n: nat)
    requires marker < Pow2(m) && c < Pow2(n)
    requires Found(bits, p, BitsOf(marker, m) + BitsOf(c, n))
    ensures p + m + n <= |bits|
    ensures ReadAt(bits, p, m) == marker && ReadAt(bits, p + m, n) == c
  {
    hide *;
    FoundParts(bits, p, BitsOf(marker, m), BitsOf(c, n));
    ReadBack(bits, p, marker, m);
    ReadBack(bits, p + m, c, n);
  }

  /** What the bits from `p` to `q` read as, for the current phrase of `e`: its code, or, for a
      character not introduced yet, the marker 0 and 8 bits below 256, the marker 1 and 16 bits above. */
  ghost predicate Says(bits: seq<bool>, p: nat, e: Enc, q: nat) {
    var n := e.width.numBits;
    && e.w != [] && q <= |bits|
    && if e.w in e.toCreate then
         var narrow := e.w[0] < 256;
         && ReadAt(bits, p, n) == (if narrow then 0 else 1)
         && ReadAt(bits, p + n, if narrow then 8 else 16) == e.w[0]
         && q == p + n + if narrow then 8 else 16
       else e.w in e.dictionary && ReadAt(bits, p, n) == e.dictionary[e.w] && q == p + n
  }

  lemma TokenSays(e: Enc, bits: seq<bool>, p: nat)
    requires e.w != [] && e.width.numBits >= 2 && Found(bits, p, Token(e))
    requires e.w !in e.toCreate ==> e.w in e.dictionary && e.dictionary[e.w] < Pow2(e.width.numBits)
    ensures Says(bits, p, e, p + |Token(e)|)
  {
    hide Pow2, BitsOf, ReadAt;
    var n, c := e.width.numBits, e.w[0];
    if e.w !in e.toCreate {
      ReadBack(bits, p, e.dictionary[e.w], n);
    } else {
      assert 1 < Pow2(n) by { Pow2Twice(n); Pow2Twice(n - 1); }
      assert c < Pow2(16) && (c < 256 ==> c < Pow2(8)) by { Pow2Values(); }
      if c < 256 {
        ReadCodeThenChar(bits, p, 0, n, c, 8);
      } else {
        ReadCodeThenChar(bits, p, 1, n, c, 16);
      }
    }
  }

  lemma ReadMarkerAndChar(e: Enc, d: Dec, bits: seq<bool>, p: nat)
    requires |e.w| == 1 && Pending(e) && e.width == d.width && d.width.numBits >= 3
    requires Found(bits, p, Token(e))
    ensures DecStep(bits, p, d) == Accept(Introduce(d, e.w[0]), d.dictSize, p + |Token(e)|)
  {
    hide Pow2, BitsOf, ReadAt, Window, LsbValue, Accept, Introduce;
    var m, c := d.width.numBits, e.w[0];
    Pow2Grows(m);
    assert c < Pow2(16) && (c < 256 ==> c < Pow2(8)) by { Pow2Values(); }
    if c < 256 {
      ReadCodeThenChar(bits, p, 0, m, c, 8);
    } else {
      ReadCodeThenChar(bits, p, 1, m, c, 16);
    }
  }

  lemma AcceptIntroduced(e: Enc, d: Dec, phrases: seq<Text>, pos: nat)
    requires Lockstep(e, d, phrases) && Pending(e)
    ensures var r := Accept(Introduce(d, e.w[0]), d.dictSize, pos);
            r.Next? && r.pos == pos && CaughtUp(e, d, r.state, phrases)
  {
    hide CharsKnown, Holds, Indexes, WidthFits;
    TickFits(d.width, d.dictSize);
    TickFits(Tick(d.width), d.dictSize + 1);
    var known := KnownCount(e, phrases);
    var d1, next := Introduce(d, e.w[0]), d.w.value + [e.w[0]];
    assert CharAt0(e.w) == [e.w[0]] == e.w;
    HoldsSnoc(d.dictionary, phrases[..known], e.w);
    HoldsSnoc(d1.dictionary, phrases[..known] + [e.w], next);
    assert phrases[..known] + [e.w] + [next] == phrases;
  }

  /** The token that introduces a first-seen character. */
  lemma ReadPending(e: Enc, d: Dec, phrases: seq<Text>, bits: seq<bool>, p: nat)
    requires Lockstep(e, d, phrases) && Pending(e)
    requires Found(bits, p, Token(e))
    ensures var r := DecStep(bits, p, d);
            r.Next? && r.pos == p + |Token(e)| && CaughtUp(e, d, r.state, phrases)
    ensures Says(bits, p, e, DecStep(bits, p, d).pos)
  {
    ReadMarkerAndChar(e, d, bits, p);
    AcceptIntroduced(e, d, phrases, p + |Token(e)|);
    TokenSays(e, bits, p);
  }

  /** The token says which phrase comes. */
  lemma ReadToken(e: Enc, d: Dec, phrases: seq<Text>, bits: seq<bool>, p: nat)
    requires Lockstep(e, d, phrases)
    requires Found(bits, p, Token(e))
    ensures var r := DecStep(bits, p, d);
            r.Next? && r.pos == p + |Token(e)| && CaughtUp(e, d, r.state, phrases) && Says(bits, p, e, r.pos)
  {
    hide Says;
    if Pending(e) { ReadPending(e, d, phrases, bits, p); } else { ReadKnown(e, d, phrases, bits, p); }
  }

  // ---- Encoder steps keep the relation ----------------------------------------------------

  lemma CharInPhrase(phrase: Text, c: CodeUnit, e: Enc, phrases: seq<Text>)
    requires Indexes(e.dictionary, phrases) && CharsKnown(e.dictionary, phrases)
    requires phrase in e.dictionary && c in phrase
    ensures [c] in e.dictionary
  {
    assert phrases[e.dictionary[phrase] - 3] == phrase;
  }

  /** Lengthening the current phrase changes nothing else. */
  lemma GrowKeeps(e: Enc, d: Dec, phrases: seq<Text>, c: CodeUnit)
    requires Lockstep(e, d, phrases)
    requires e.w + [c] in Learn(e, c).dictionary
    ensures Learn(e, c) == e && !Pending(e)
    ensures EncStep(e, c) == e.(w := e.w + [c]) && Lockstep(EncStep(e, c), d, phrases)
  {
    var wc := e.w + [c];
    assert wc[|e.w|] == c;
    assert wc != [c];
    CharInPhrase(wc, c, e, phrases);
    var k := e.dictionary[wc] - 3;
    assert phrases[k] == wc;
    if Pending(e) {
      assert wc[0] == e.w[0];
      assert e.w[0] in phrases[k];
      var n := |phrases|;
      if k == n - 1 {
        assert false;
      }
    }
    assert wc !in e.toCreate;
  }

  ghost function LearnPhrases(e: Enc, phrases: seq<Text>, c: CodeUnit): seq<Text> {
    if [c] in e.dictionary then phrases else phrases + [[c]]
  }

  /** After an emission the phrase list has a possibly new character and the phrase w + c. */
  ghost function NextPhrases(e: Enc, phrases: seq<Text>, c: CodeUnit): seq<Text> {
    LearnPhrases(e, phrases, c) + [e.w + [c]]
  }

  lemma IndexesSnoc(dictionary: map<Text, nat>, phrases: seq<Text>, s: Text)
    requires Indexes(dictionary, phrases) && s !in dictionary
    ensures Indexes(WithCode(dictionary, s, |phrases| + 3), phrases + [s])
  {
  }

  lemma LearnKeeps(e: Enc, prev: Text, phrases: seq<Text>, c: CodeUnit)
    requires EncoderShape(e, prev, phrases)
    ensures var e1 := Learn(e, c);
            var ph := LearnPhrases(e, phrases, c);
            && e1.dictSize == |ph| + 3 && Indexes(e1.dictionary, ph) && CharsKnown(e1.dictionary, ph)
            && [c] in e1.dictionary
            && ([c] !in e.dictionary ==> c !in e.w && forall i :: 0 <= i < |phrases| ==> c !in phrases[i])
  {
    if [c] !in e.dictionary {
      IndexesSnoc(e.dictionary, phrases, [c]);
      if c in e.w { CharInPhrase(e.w, c, e, phrases); }
    }
  }

  lemma EmitDictionary(e: Enc, prev: Text, phrases: seq<Text>, c: CodeUnit)
    requires EncoderShape(e, prev, phrases)
    requires e.w + [c] !in Learn(e, c).dictionary
    ensures var e', ph := EncStep(e, c), NextPhrases(e, phrases, c);
            && e'.w == [c] && [c] in e'.dictionary && e'.dictSize == |ph| + 3
            && Indexes(e'.dictionary, ph) && CharsKnown(e'.dictionary, ph)
  {
    hide Indexes, CharsKnown, PendingIsNew, Learn, Token, Tick, WithCode;
    var e1, ph1 := Learn(e, c), LearnPhrases(e, phrases, c);
    LearnKeeps(e, prev, phrases, c);
    LearnOnly(e, c);
    IndexesSnoc(e1.dictionary, ph1, e.w + [c]);
    forall x | x in e.w + [c]
      ensures [x] in e1.dictionary
    {
      if x in e.w { WordKnown(e, prev, phrases, x, c); }
    }
    CharsSnoc(e1.dictionary, ph1, e.w + [c], e1.dictSize);
    assert [c] != PROTO;
  }

  /** Learning a character adds at most its own entry. */
  lemma LearnOnly(e: Enc, c: CodeUnit)
    ensures var e1 := Learn(e, c);
            e1 == e.(dictionary := e1.dictionary, toCreate := e1.toCreate, dictSize := e1.dictSize)
  {
    hide WithCode;
  }

  lemma WordKnown(e: Enc, prev: Text, phrases: seq<Text>, x: CodeUnit, c: CodeUnit)
    requires EncoderShape(e, prev, phrases) && x in e.w
    ensures [x] in Learn(e, c).dictionary
  {
    hide Indexes, CharsKnown, PendingIsNew;
    CharInPhrase(e.w, x, e, phrases);
  }

  lemma CharsSnoc(dictionary: map<Text, nat>, phrases: seq<Text>, s: Text, code: nat)
    requires CharsKnown(dictionary, phrases) && forall x :: x in s ==> [x] in dictionary
    ensures CharsKnown(WithCode(dictionary, s, code), phrases + [s])
    ensures forall k :: k in dictionary ==> k in WithCode(dictionary, s, code)
  {
  }

  lemma EmitPending(e: Enc, prev: Text, phrases: seq<Text>, c: CodeUnit)
    requires EncoderShape(e, prev, phrases)
    requires e.w + [c] !in Learn(e, c).dictionary
    ensures var e', ph := EncStep(e, c), NextPhrases(e, phrases, c);
            && e'.toCreate == (if Pending(e') then {[c]} else {})
            && (Pending(e') <==> [c] !in e.dictionary)
            && PendingIsNew(e', e.w, ph)
  {
    hide Tick, Token, Indexes, CharsKnown;
    LearnKeeps(e, prev, phrases, c);
  }

  /** The encoder's part of the relation after it emits `e.w` and starts again with `c`. */
  lemma EmitShape(e: Enc, prev: Text, phrases: seq<Text>, c: CodeUnit)
    requires EncoderShape(e, prev, phrases)
    requires e.w + [c] !in Learn(e, c).dictionary
    ensures var e', ph := EncStep(e, c), NextPhrases(e, phrases, c);
            && EncoderShape(e', e.w, ph)
            && KnownCount(e', ph) == |phrases| && ph[..|phrases|] == phrases
            && e'.bits == e.bits + Token(e) && e'.width == Emit(e).width
  {
    hide Tick, Indexes, CharsKnown, PendingIsNew;
    EmitDictionary(e, prev, phrases, c);
    EmitPending(e, prev, phrases, c);
  }

  /** One emission of the encoder is one step of the decoder, and the relation holds again. */
  lemma EmissionInLockstep(e: Enc, d: Dec, phrases: seq<Text>, c: CodeUnit, bits: seq<bool>)
    requires Lockstep(e, d, phrases)
    requires e.w + [c] !in Learn(e, c).dictionary
    requires EncStep(e, c).bits <= bits
    ensures var r := DecStep(bits, |e.bits|, d);
            && r.Next? && r.pos == |EncStep(e, c).bits|
            && r.state.result == d.result + e.w
            && EncStep(e, c).w == [c]
            && Lockstep(EncStep(e, c), r.state, NextPhrases(e, phrases, c))
    ensures Says(bits, |e.bits|, e, |EncStep(e, c).bits|)
  {
    hide Tick, Indexes, CharsKnown, PendingIsNew, DecStep, Holds, Token, WidthFits, Says;
    EmitShape(e, d.w.value, phrases, c);
    assert bits[|e.bits|..|e.bits| + |Token(e)|] == Token(e);
    ReadToken(e, d, phrases, bits, |e.bits|);
  }

  // ---- Whole runs -------------------------------------------------------------------------

  lemma StepExtends(e: Enc, c: CodeUnit)
    ensures e.bits <= EncStep(e, c).bits
  {
  }

  lemma {:induction false} RunExtends(e: Enc, text: Text)
    ensures e.bits <= EncRun(e, text).bits
    decreases |text|
  {
    if text != [] {
      StepExtends(e, text[0]);
      RunExtends(EncStep(e, text[0]), text[1..]);
    }
  }

  lemma FinishExtends(e: Enc)
    ensures e.bits <= EncFinish(e)
  {
  }

  /** The end marker stops the decoder with everything it has collected. */
  lemma ReadEnd(bits: seq<bool>, p: nat, d: Dec)
    requires p < |bits| && d.width.numBits >= 3
    requires Found(bits, p, BitsOf(2, d.width.numBits))
    ensures DecLoop(bits, p, d) == Value(d.result) && ReadAt(bits, p, d.width.numBits) == 2
  {
    Pow2Grows(d.width.numBits);
    ReadBack(bits, p, 2, d.width.numBits);
  }

  /** After its last phrase the encoder writes the marker 2 in the width that this phrase leads to,
      and nothing more. */
  ghost predicate Ends(bits: seq<bool>, e: Enc) {
    exists q: nat :: Says(bits, |e.bits|, e, q) && Marked(bits, q, WidthAfter(e), |EncFinish(e)|)
  }

  ghost predicate Marked(bits: seq<bool>, q: nat, n: nat, end: nat) {
    ReadAt(bits, q, n) == 2 && end == q + n
  }

  /** One entry, or two with an introduced character, and the codes get wider when the countdown ends. */
  ghost function WidthAfter(e: Enc): nat {
    var entries := if e.w in e.toCreate then 2 else 1;
    e.width.numBits + if e.width.enlargeIn <= entries then 1 else 0
  }

  lemma WidthAfterIs(e: Enc)
    requires e.width.enlargeIn >= 1 && e.width.numBits >= 2
    ensures Emit(e).width.numBits == WidthAfter(e)
  {
    hide Token;
    Pow2Twice(e.width.numBits);
  }

  lemma FinishInLockstep(e: Enc, d: Dec, phrases: seq<Text>, bits: seq<bool>)
    requires Lockstep(e, d, phrases)
    requires EncFinish(e) <= bits
    ensures DecLoop(bits, |e.bits|, d) == Value(d.result + e.w)
    ensures Ends(bits, e)
  {
    hide Tick, Indexes, CharsKnown, PendingIsNew, Holds, Token, BitsOf, DecStep, Says;
    var p := |e.bits|;
    var token, end := Token(e), BitsOf(2, Emit(e).width.numBits);
    assert EncFinish(e) == e.bits + token + end;
    assert bits[p..p + |token|] == token;
    assert bits[p + |token|..p + |token| + |end|] == end;
    ReadToken(e, d, phrases, bits, p);
    var d' := DecStep(bits, p, d).state;
    ReadEnd(bits, p + |token|, d');
    WidthAfterIs(e);
    assert Says(bits, p, e, p + |token|) && Marked(bits, p + |token|, WidthAfter(e), |EncFinish(e)|);
  }

  /** From any related pair of states, the decoder reproduces what the encoder still has to send. */
  lemma {:induction false} RunInLockstep(e: Enc, d: Dec, phrases: seq<Text>, rest: Text, bits: seq<bool>)
    requires Lockstep(e, d, phrases)
    requires EncFinish(EncRun(e, rest)) <= bits
    ensures DecLoop(bits, |e.bits|, d) == Value(d.result + e.w + rest)
    decreases |rest|
  {
    hide Tick, Learn, EncStep, EncFinish, EncoderShape, DecStep, KnownCount, Holds, WidthFits;
    if rest == [] {
      FinishInLockstep(e, d, phrases, bits);
      assert d.result + e.w + rest == d.result + e.w;
    } else {
      var c, tail := rest[0], rest[1..];
      assert rest == [c] + tail;
      var e' := EncStep(e, c);
      if e.w + [c] in Learn(e, c).dictionary {
        GrowKeeps(e, d, phrases, c);
        RunInLockstep(e', d, phrases, tail, bits);
        assert d.result + e.w + rest == d.result + e'.w + tail;
      } else {
        RunExtends(e', tail);
        FinishExtends(EncRun(e', tail));
        EmissionInLockstep(e, d, phrases, c, bits);
        var r := DecStep(bits, |e.bits|, d);
        RunInLockstep(e', r.state, NextPhrases(e, phrases, c), tail, bits);
        assert d.result + e.w + rest == r.state.result + [c] + tail;
      }
    }
  }

  // ---- The first phrase -------------------------------------------------------------------

  ghost function FirstState(c: CodeUnit): Enc {
    Enc(map[[c] := 3], {[c]}, [c], Width(2, 2), 4, [])
  }

  lemma FirstChar(c: CodeUnit)
    ensures EncStep(ENC_INIT, c) == FirstState(c)
  {
    assert ENC_INIT.w + [c] == [c];
  }

  ghost function FirstToken(c: CodeUnit): seq<bool> {
    if c < 256 then BitsOf(0, 2) + BitsOf(c, 8) else BitsOf(1, 2) + BitsOf(c, 16)
  }

  lemma FirstEmit(c: CodeUnit)
    ensures Emit(FirstState(c)) == Enc(map[[c] := 3], {}, [c], Width(4, 3), 4, FirstToken(c))
  {
    Pow2Values();
    assert [] + FirstToken(c) == FirstToken(c);
  }

  lemma ReadFirst(bits: seq<bool>, c: CodeUnit)
    requires FirstToken(c) <= bits
    ensures DecompressBits(bits) == DecLoop(bits, |FirstToken(c)|, DecInit(Some([c])))
  {
    hide BitsOf, ReadAt, DecLoop, DecInit, Pow2;
    assert 2 <= Pow2(2) && c < Pow2(16) && (c < 256 ==> c < Pow2(8)) by { Pow2Values(); }
    assert Found(bits, 0, FirstToken(c));
    if c < 256 {
      ReadCodeThenChar(bits, 0, 0, 2, c, 8);
    } else {
      ReadCodeThenChar(bits, 0, 1, 2, c, 16);
    }
  }

  ghost function SecondPhrases(c: CodeUnit, c2: CodeUnit): seq<Text> {
    (if c == c2 then [[c]] else [[c], [c2]]) + [[c, c2]]
  }

  lemma SecondChar(c: CodeUnit, c2: CodeUnit)
    ensures var e := EncStep(FirstState(c), c2);
            && e.w == [c2] && e.bits == FirstToken(c)
            && Lockstep(e, DecInit(Some([c])), SecondPhrases(c, c2))
  {
    hide EncStep, FirstToken, DecInit, Indexes, CharsKnown, Holds, Pow2;
    SecondState(c, c2);
    SecondShape(c, c2, EncStep(FirstState(c), c2).dictionary);
    DecInitIs(c);
    assert SecondPhrases(c, c2)[..1] == [[c]];
    assert Pow2(3) == 8 && Pow2(2) == 4 by { Pow2Values(); }
    assert SecondPhrases(c, c2)[|SecondPhrases(c, c2)| - 1] == [c] + [c2];
  }

  ghost function SecondDictionary(c: CodeUnit, c2: CodeUnit): map<Text, nat> {
    if c == c2 then map[[c] := 3, [c, c2] := 4] else map[[c] := 3, [c2] := 4, [c, c2] := 5]
  }

  lemma SecondState(c: CodeUnit, c2: CodeUnit)
    ensures EncStep(FirstState(c), c2) ==
            Enc(SecondDictionary(c, c2), if c == c2 then {} else {[c2]}, [c2], Width(4, 3),
                if c == c2 then 5 else 6, FirstToken(c))
  {
    hide BitsOf, FirstToken;
    var e0 := Learn(FirstState(c), c2);
    FirstEmit(c);
    assert [c] + [c2] == [c, c2];
    assert Token(e0) == Token(FirstState(c)) && e0.bits + Token(e0) == FirstToken(c);
  }

  lemma SecondShape(c: CodeUnit, c2: CodeUnit, dictionary: map<Text, nat>)
    requires dictionary == SecondDictionary(c, c2)
    ensures Indexes(dictionary, SecondPhrases(c, c2))
    ensures CharsKnown(dictionary, SecondPhrases(c, c2))
  {
  }

  lemma DecInitIs(c: CodeUnit)
    ensures var d := DecInit(Some([c]));
            d.w == Some([c]) && d.dictSize == 4 && d.width == Width(4, 3) && Holds(d.dictionary, [[c]])
  {
  }

  lemma ReadEmpty(bits: seq<bool>)
    requires CompressedBits([]) < bits
    ensures DecompressBits(bits) == Value([])
  {
    assert CompressedBits([]) == BitsOf(2, 2);
    assert 2 < Pow2(2) by { Pow2Values(); }
    ReadBack(bits, 0, 2, 2);
  }

  lemma ReadSingle(c: CodeUnit, bits: seq<bool>)
    requires EncFinish(FirstState(c)) < bits
    ensures DecompressBits(bits) == Value([c])
  {
    hide BitsOf, FirstToken, DecLoop, DecompressBits;
    FirstEmit(c);
    var token, end := FirstToken(c), BitsOf(2, 3);
    assert token + end < bits;
    assert bits[|token|..|token| + |end|] == end;
    ReadFirst(bits, c);
    ReadEnd(bits, |token|, DecInit(Some([c])));
  }

  /** The decoder recovers the text from any stream that continues past the encoder's bits. */
  lemma DecompressInvertsCompress(text: Text, bits: seq<bool>)
    requires CompressedBits(text) < bits
    ensures DecompressBits(bits) == Value(text)
  {
    hide Tick, EncStep, Token, DecLoop, Lockstep, Emit;
    if text == [] {
      ReadEmpty(bits);
    } else {
      var c, tail := text[0], text[1..];
      FirstChar(c);
      assert CompressedBits(text) == EncFinish(EncRun(FirstState(c), tail));
      if tail == [] {
        assert EncRun(FirstState(c), tail) == FirstState(c);
        ReadSingle(c, bits);
        assert text == [c];
      } else {
        var e := EncStep(FirstState(c), tail[0]);
        SecondChar(c, tail[0]);
        assert EncRun(FirstState(c), tail) == EncRun(e, tail[1..]);
        RunExtends(e, tail[1..]);
        FinishExtends(EncRun(e, tail[1..]));
        ReadFirst(bits, c);
        RunInLockstep(e, DecInit(Some([c])), SecondPhrases(c, tail[0]), tail[1..], bits);
        assert [c] + [tail[0]] + tail[1..] == text;
      }
    }
  }

  /** Round trip, with any characters appended to the compressed text. */
  lemma RoundTrip(text: Text, bitsPerChar: nat, extra: seq<int>)
    requires bitsPerChar > 0
    ensures DecompressSpec(CompressSpec(text, bitsPerChar) + extra, bitsPerChar) == Value(text)
  {
    var padded := Padded(CompressedBits(text), bitsPerChar);
    UnpackPack(padded, bitsPerChar);
    UnpackAppend(CompressSpec(text, bitsPerChar), extra, bitsPerChar);
    DecompressInvertsCompress(text, padded + Unpack(extra, bitsPerChar));
  }

  // ---- Every reachable state --------------------------------------------------------------

  /** The decoder's state when it has read exactly the bits up to `q`, if it stops there. */
  ghost function DecStateAt(bits: seq<bool>, p: nat, d: Dec, q: nat): Option<Dec>
    decreases q - p
  {
    if p == q then Some(d)
    else
      match DecStep(bits, p, d)
      case Done(_) => None
      case Next(p', d') => if p < p' <= q then DecStateAt(bits, p', d', q) else None
  }

  lemma {:induction false} DecStateSnoc(bits: seq<bool>, p: nat, d: Dec, q: nat, d1: Dec)
    requires DecStateAt(bits, p, d, q) == Some(d1) && p <= q
    requires d1.width.numBits > 0 && DecStep(bits, q, d1).Next?
    ensures var r := DecStep(bits, q, d1); DecStateAt(bits, p, d, r.pos) == Some(r.state)
    decreases q - p
  {
    hide Accept, ReadAt;
    DecStepProgress(bits, q, d1);
    if p < q {
      var r := DecStep(bits, p, d);
      DecStateSnoc(bits, r.pos, r.state, q, d1);
    }
  }

  lemma {:induction false} RunSnoc(e: Enc, text: Text, c: CodeUnit)
    ensures EncRun(e, text + [c]) == EncStep(EncRun(e, text), c)
    decreases |text|
  {
    if text == [] {
      assert text + [c] == [c];
      assert EncRun(EncStep(e, c), []) == EncStep(e, c);
    } else {
      assert (text + [c])[1..] == text[1..] + [c];
      RunSnoc(EncStep(e, text[0]), text[1..], c);
    }
  }

  /** Lockstep at every point of every run: when the encoder has taken in `text`, a decoder that
      has read everything sent so far has output all of `text` but the phrase still being matched. */
  lemma {:induction false} AlwaysInLockstep(text: Text, bits: seq<bool>) returns (d: Dec, phrases: seq<Text>)
    requires |text| >= 2 && EncRun(ENC_INIT, text).bits <= bits
    ensures var e := EncRun(ENC_INIT, text);
            && DecStateAt(bits, |FirstToken(text[0])|, DecInit(Some([text[0]])), |e.bits|) == Some(d)
            && |FirstToken(text[0])| <= |e.bits|
            && Lockstep(e, d, phrases)
            && d.result + e.w == text
    decreases |text|
  {
    hide Tick, EncStep, Learn, EncoderShape, FirstToken, DecStep, Holds, WidthFits, KnownCount, DecStateAt;
    var n := |text| - 1;
    var front, c := text[..n], text[n];
    assert text == front + [c];
    RunSnoc(ENC_INIT, front, c);
    var e := EncRun(ENC_INIT, front);
    StepExtends(e, c);
    if n == 1 {
      FirstChar(front[0]);
      assert front == [front[0]];
      assert EncRun(EncStep(ENC_INIT, front[0]), front[1..]) == FirstState(front[0]);
      SecondChar(front[0], c);
      d, phrases := DecInit(Some([front[0]])), SecondPhrases(front[0], c);
      DecStateHere(bits, |FirstToken(front[0])|, d);
      assert [front[0]] + [c] == text;
    } else {
      d, phrases := AlwaysInLockstep(front, bits);
      if e.w + [c] in Learn(e, c).dictionary {
        GrowKeeps(e, d, phrases, c);
        assert d.result + (e.w + [c]) == text;
      } else {
        EmissionInLockstep(e, d, phrases, c, bits);
        WidthPositive(d);
        DecStateSnoc(bits, |FirstToken(text[0])|, DecInit(Some([text[0]])), |e.bits|, d);
        d, phrases := DecStep(bits, |e.bits|, d).state, NextPhrases(e, phrases, c);
      }
    }
  }

  /** Every emission of every run, read off the stream: a phrase the encoder has sent before goes out
      as its code, and a character that is new as a marker and 8 or 16 bits. */
  lemma EveryToken(text: Text, c: CodeUnit, bits: seq<bool>)
    requires text != [] && EncStep(EncRun(ENC_INIT, text), c).bits <= bits
    ensures var e := EncRun(ENC_INIT, text);
            if e.w + [c] in Learn(e, c).dictionary then EncStep(e, c).bits == e.bits
            else Says(bits, |e.bits|, e, |EncStep(e, c).bits|)
  {
    hide EncStep, Learn, Lockstep, Says, DecStateAt, FirstToken;
    var e := EncRun(ENC_INIT, text);
    StepExtends(e, c);
    if |text| == 1 {
      OneCharacter(text[0]);
      assert text == [text[0]];
      FirstSays(text[0], c, bits);
    } else {
      var d, phrases := AlwaysInLockstep(text, bits);
      if e.w + [c] in Learn(e, c).dictionary {
        GrowKeeps(e, d, phrases, c);
      } else {
        EmissionInLockstep(e, d, phrases, c, bits);
      }
    }
  }

  /** The characters waiting for their introduction are those that occur for the first time. */
  lemma {:induction false} PendingIsFirst(text: Text)
    requires text != []
    ensures var e, n := EncRun(ENC_INIT, text), |text| - 1;
            && (Pending(e) <==> text[n] !in text[..n])
            && forall x: CodeUnit :: [x] in e.dictionary <==> x in text
    decreases |text|
  {
    hide EncStep, Learn, EncoderShape, KnownCount, Holds, WidthFits, DecStateAt, FirstToken;
    var n := |text| - 1;
    var front, c := text[..n], text[n];
    assert text == front + [c];
    RunSnoc(ENC_INIT, front, c);
    var e := EncRun(ENC_INIT, front);
    if n == 0 {
      assert text == [c] && front == [];
      OneCharacter(c);
    } else if n == 1 {
      assert front == [front[0]];
      OneCharacter(front[0]);
      SecondState(front[0], c);
    } else {
      PendingIsFirst(front);
      var d, phrases := AlwaysInLockstep(front, e.bits);
      SingleKeys(e, c);
      NothingPending(e, d, phrases);
      assert forall x: CodeUnit :: x in text <==> x in front || x == c;
      if e.w + [c] in Learn(e, c).dictionary {
        GrowKeeps(e, d, phrases, c);
      } else {
        EmitPending(e, d.w.value, phrases, c);
      }
    }
  }

  lemma NothingPending(e: Enc, d: Dec, phrases: seq<Text>)
    requires Lockstep(e, d, phrases)
    ensures e.w != [] && (!Pending(e) ==> e.toCreate == {})
  {
    hide Indexes, CharsKnown, PendingIsNew, Holds;
  }

  lemma SingleKeys(e: Enc, c: CodeUnit)
    ensures [c] in Learn(e, c).dictionary
    ensures e.w != [] ==> forall x: CodeUnit :: [x] in EncStep(e, c).dictionary <==> [x] in e.dictionary || x == c
  {
    hide Token, Tick;
    assert |e.w + [c]| == |e.w| + 1;
    assert |PROTO| == 9;
  }

  lemma EmptyEnds()
    ensures |CompressedBits([])| == 2 && ReadAt(CompressedBits([]), 0, 2) == 2
  {
    assert CompressedBits([]) == BitsOf(2, 2);
    assert 2 < Pow2(2) by { Pow2Values(); }
    ReadBack(CompressedBits([]), 0, 2, 2);
  }

  lemma OneCharacter(c: CodeUnit)
    ensures EncRun(ENC_INIT, [c]) == FirstState(c)
  {
    hide EncStep;
    FirstChar(c);
    assert [c][1..] == [];
    assert EncRun(FirstState(c), []) == FirstState(c);
  }

  lemma FirstSays(c: CodeUnit, c2: CodeUnit, bits: seq<bool>)
    requires EncStep(FirstState(c), c2).bits <= bits
    ensures FirstState(c).w + [c2] !in Learn(FirstState(c), c2).dictionary
    ensures Says(bits, 0, FirstState(c), |EncStep(FirstState(c), c2).bits|)
  {
    hide BitsOf, Says, FirstToken;
    SecondState(c, c2);
    FirstEmit(c);
    assert |[c] + [c2]| == 2;
    TokenSays(FirstState(c), bits, 0);
  }

  /** And the end of every stream: the last phrase, the end marker, and nothing more. */
  lemma EveryEnd(text: Text, bits: seq<bool>)
    requires text != [] && CompressedBits(text) <= bits
    ensures Ends(bits, EncRun(ENC_INIT, text))
  {
    hide EncStep, Learn, Lockstep, Says, DecStateAt, FirstToken, EncFinish, Ends;
    var e := EncRun(ENC_INIT, text);
    FinishExtends(e);
    if |text| == 1 {
      OneCharacter(text[0]);
      assert text == [text[0]];
      FirstEnds(text[0], bits);
    } else {
      var d, phrases := AlwaysInLockstep(text, bits);
      FinishInLockstep(e, d, phrases, bits);
    }
  }

  lemma FirstEnds(c: CodeUnit, bits: seq<bool>)
    requires EncFinish(FirstState(c)) <= bits
    ensures Ends(bits, FirstState(c))
  {
    hide BitsOf, Says, FirstToken, ReadAt;
    FirstEmit(c);
    var token, end := FirstToken(c), BitsOf(2, 3);
    assert token + end <= bits;
    assert bits[|token|..|token| + |end|] == end;
    TokenSays(FirstState(c), bits, 0);
    assert 2 < Pow2(3) by { Pow2Values(); }
    ReadBack(bits, |token|, 2, 3);
    assert Marked(bits, |token|, 3, |EncFinish(FirstState(c))|);
  }

  lemma DecStateHere(bits: seq<bool>, p: nat, d: Dec)
    ensures DecStateAt(bits, p, d, p) == Some(d)
  {
  }

  lemma WidthPositive(d: Dec)
    requires WidthFits(d.width, d.dictSize)
    ensures d.width.numBits > 0
  {
  }

  lemma {:induction false} DictSizeBound(text: Text)
    ensures EncRun(ENC_INIT, text).dictSize <= 2 * |text| + 3
    decreases |text|
  {
    if text != [] {
      var n := |text| - 1;
      assert text == text[..n] + [text[n]];
      DictSizeBound(text[..n]);
      RunSnoc(ENC_INIT, text[..n], text[n]);
    }
  }

  lemma {:induction false} Pow2Order(m: nat, n: nat)
    requires Pow2(m) < Pow2(n)
    ensures m < n
    decreases m
  {
    if m > 0 && n > 0 {
      Pow2Order(m - 1, n - 1);
    }
  }

  /** Widths: a phrase already in the dictionary has a code that is no marker and fits the current
      width; texts shorter than 2^29 - 1 characters never need more than 30 bits. */
  lemma CodesFit(text: Text)
    requires |text| >= 2
    ensures var e := EncRun(ENC_INIT, text);
            && (e.w !in e.toCreate ==> e.w in e.dictionary && 3 <= e.dictionary[e.w] < Pow2(e.width.numBits))
            && (2 * |text| + 3 < Pow2(30) ==> e.width.numBits <= 30)
  {
    hide *;
    var e := EncRun(ENC_INIT, text);
    var d, phrases := AlwaysInLockstep(text, e.bits);
    DictSizeBound(text);
    CodeFits(e, d, phrases);
    if 2 * |text| + 3 < Pow2(30) {
      Pow2Order(d.width.numBits - 1, 30);
    }
  }

  lemma CodeFits(e: Enc, d: Dec, phrases: seq<Text>)
    requires Lockstep(e, d, phrases)
    ensures e.w !in e.toCreate ==> e.w in e.dictionary && 3 <= e.dictionary[e.w] < Pow2(e.width.numBits)
    ensures d.width == e.width && e.width.numBits >= 3 && Pow2(e.width.numBits - 1) <= e.dictSize
  {
    hide CharsKnown, PendingIsNew, Holds, Pow2;
  }
}
