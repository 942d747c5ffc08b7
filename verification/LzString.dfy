/** The compressor and the decompressor as the loops of lz-string.js. */
module LzString {
  import opened Bits
  import opened LzSpec
  import opened Option

  // ---- _compress --------------------------------------------------------------------------

  /** The `context_*` variables of one compression. */
  class Compressor {
    var dictionary: map<Text, nat>
    var toCreate: set<Text>
    var w: Text
    var enlargeIn: nat
    var dictSize: nat
    var numBits: nat

    const bitsPerChar: nat
    var data: seq<nat>
    var dataVal: nat
    var dataPosition: nat

    ghost var packed: seq<bool>   // the bits in `data`
    ghost var partial: seq<bool>  // the bits in `dataVal`

    ghost predicate Valid()
      reads this
    {
      && enlargeIn >= 1
      && 0 <= dataPosition < bitsPerChar
      && Whole(|packed|, bitsPerChar) && data == Pack(packed, bitsPerChar)
      && |partial| == dataPosition && dataVal == MsbValue(partial)
    }

    ghost function Written(): seq<bool>
      reads this
    {
      packed + partial
    }

    ghost function View(): Enc
      reads this
    {
      Enc(dictionary, toCreate, w, Width(enlargeIn, numBits), dictSize, Written())
    }

    constructor (bitsPerChar: nat)
      requires bitsPerChar > 0
      ensures Valid() && View() == ENC_INIT && this.bitsPerChar == bitsPerChar
    {
      dictionary, toCreate, w := map[], {}, [];
      enlargeIn, dictSize, numBits := 2, 3, 2;
      this.bitsPerChar := bitsPerChar;
      data, dataVal, dataPosition := [], 0, 0;
      packed, partial := [], [];
    }

    method PutBit(b: bool)
      requires Valid()
      modifies `data, `dataVal, `dataPosition, `packed, `partial
      ensures Valid() && Written() == old(Written()) + [b]
    {
      hide Pack, Whole, MsbValue;
      MsbSnoc(partial, b);
      dataVal := 2 * dataVal + BitValue(b);
      partial := partial + [b];
      if dataPosition == bitsPerChar - 1 {
        dataPosition := 0;
        data := data + [dataVal];
        dataVal := 0;
        PackGroup(packed, partial, bitsPerChar);
        packed, partial := packed + partial, [];
      } else {
        dataPosition := dataPosition + 1;
      }
    }

    /** One emission loop: `n` bits of `value`, least significant first. */
    method PutCode(value: nat, n: nat)
      requires Valid()
      modifies `data, `dataVal, `dataPosition, `packed, `partial
      ensures Valid() && Written() == old(Written()) + BitsOf(value, n)
    {
      var v := value;
      for i := 0 to n
        invariant Valid()
        invariant Written() + BitsOf(v, n - i) == old(Written()) + BitsOf(value, n)
      {
        PutBit(v % 2 == 1);
        v := v / 2;
      }
    }

    method TickWidth()
      requires Valid()
      modifies `enlargeIn, `numBits
      ensures Valid() && Width(enlargeIn, numBits) == old(Tick(Width(enlargeIn, numBits)))
    {
      enlargeIn := enlargeIn - 1;
      if enlargeIn == 0 {
        enlargeIn := Pow2(numBits);
        numBits := numBits + 1;
      }
    }

    /** Output the code for `w`. */
    method EmitWord()
      requires Valid()
      modifies `data, `dataVal, `dataPosition, `packed, `partial, `enlargeIn, `numBits, `toCreate
      ensures Valid() && View() == Emit(old(View()))
    {
      hide BitsOf, Pack, MsbValue, Tick, Pow2, Whole;
      if w in toCreate {
        var wide := Lead(w) >= 256;
        PutCode(if wide then 1 else 0, numBits);
        PutCode(Lead(w), if wide then 16 else 8);
        assert Written() == old(Written()) + Token(old(View()));
        TickWidth();
        toCreate := toCreate - {w};
      } else {
        PutCode(CodeOf(dictionary, w), numBits);
      }
      TickWidth();
    }

    /** One iteration of the main loop. */
    method Feed(c: CodeUnit)
      requires Valid()
      modifies this
      ensures Valid() && View() == EncStep(old(View()), c)
    {
      hide Pack, MsbValue, Whole, Token, Tick;
      if [c] !in dictionary {
        dictionary := WithCode(dictionary, [c], dictSize);
        dictSize := dictSize + 1;
        toCreate := toCreate + {[c]};
      }
      var wc := w + [c];
      if wc in dictionary {
        w := wc;
      } else {
        EmitWord();
        dictionary := WithCode(dictionary, wc, dictSize);
        dictSize := dictSize + 1;
        w := [c];
      }
    }

    /** Complete the last character with zero bits, at least one. */
    method Flush()
      requires Valid()
      modifies this
      ensures data == Pack(Padded(old(Written()), bitsPerChar), bitsPerChar)
    {
      hide Pack, MsbValue, Whole, Padded;
      ghost var zeros := 0;
      ghost var before := partial;
      while true
        invariant Valid() && packed == old(packed)
        invariant dataPosition == |before| + zeros && partial == before + Zeros(zeros)
        decreases bitsPerChar - dataPosition
      {
        zeros := zeros + 1;
        MsbSnoc(partial, false);
        dataVal := 2 * dataVal;
        partial := partial + [false];
        assert partial == before + Zeros(zeros);
        if dataPosition == bitsPerChar - 1 {
          data := data + [dataVal];
          break;
        } else {
          dataPosition := dataPosition + 1;
        }
      }
      PackGroup(packed, partial, bitsPerChar);
      FilledIsPadded(packed, before, bitsPerChar);
    }
  }

  lemma PackGroup(packed: seq<bool>, group: seq<bool>, width: nat)
    requires width > 0 && |group| == width && Whole(|packed|, width)
    ensures Pack(packed + group, width) == Pack(packed, width) + [MsbValue(group)]
    ensures Whole(|packed + group|, width)
  {
    var all := packed + group;
    assert all[..|all| - width] == packed && all[|all| - width..] == group;
    assert |all| == width * (|packed| / width + 1);
    Multiple(|packed| / width + 1, width);
  }

  lemma RemainderOfSum(whole: nat, rest: nat, width: nat)
    requires width > 0 && Whole(whole, width) && rest < width
    ensures (whole + rest) % width == rest
  {
    QuotientUnique(whole + rest, width, whole / width, rest);
  }

  lemma FilledIsPadded(packed: seq<bool>, rest: seq<bool>, width: nat)
    requires width > 0 && Whole(|packed|, width) && |rest| < width
    ensures packed + (rest + Zeros(width - |rest|)) == Padded(packed + rest, width)
  {
    RemainderOfSum(|packed|, |rest|, width);
  }

  method Compress(text: Text, bitsPerChar: nat) returns (out: seq<nat>)
    requires bitsPerChar > 0
    ensures out == CompressSpec(text, bitsPerChar)
  {
    var c := new Compressor(bitsPerChar);
    for ii := 0 to |text|
      invariant c.Valid() && c.bitsPerChar == bitsPerChar
      invariant EncRun(c.View(), text[ii..]) == EncRun(ENC_INIT, text)
    {
      c.Feed(text[ii]);
    }
    if c.w != [] {
      c.EmitWord();
    }
    c.PutCode(2, c.numBits);
    c.Flush();
    out := c.data;
  }

  // ---- _decompress ------------------------------------------------------------------------

  /** The `data` record of one decompression: current character, bit mask and next index. */
  class BitReader {
    const chars: seq<int>
    const resetValue: nat
    var val: int
    var position: nat
    var index: nat

    ghost const width: nat
    ghost var taken: nat  // bits already read from the current character

    /** Values past the end behave as 0 in bit operations. */
    function GetNextValue(i: nat): int {
      if i < |chars| then chars[i] else 0
    }

    ghost predicate Valid()
      reads this
    {
      && width > 0 && resetValue == Pow2(width - 1)
      && taken < width && position == Pow2(width - 1 - taken)
      && index >= 1 && val == GetNextValue(index - 1)
    }

    ghost function Bits(): seq<bool> {
      Unpack(chars, width)
    }

    ghost function Pos(): nat
      requires Valid()
      reads this
    {
      (index - 1) * width + taken
    }

    constructor (chars: seq<int>, resetValue: nat, ghost width: nat)
      requires width > 0 && resetValue == Pow2(width - 1)
      ensures Valid() && Pos() == 0 && this.chars == chars && this.width == width
    {
      this.chars, this.resetValue, this.width := chars, resetValue, width;
      val := if 0 < |chars| then chars[0] else 0;
      position, index, taken := resetValue, 1, 0;
    }

    method ReadBit() returns (b: bool)
      requires Valid()
      modifies `val, `position, `index, `taken
      ensures Valid() && Pos() == old(Pos()) + 1
      ensures b == (old(Pos()) < |Bits()| && Bits()[old(Pos())])
    {
      hide Unpack, Masked, Bit;
      MaskedIsBit(val, width - 1 - taken);
      BitAtPosition(chars, width, index - 1, taken);
      b := Masked(val, position);
      position := position / 2;
      if position == 0 {
        Successor(index - 1, width);
        position := resetValue;
        val := GetNextValue(index);
        index := index + 1;
        taken := 0;
      } else {
        taken := taken + 1;
      }
    }

    /** One reading loop: an `n`-bit code, least significant bit first. */
    method ReadCode(n: nat) returns (bits: nat)
      requires Valid()
      modifies `val, `position, `index, `taken
      ensures Valid() && Pos() == old(Pos()) + n
      ensures bits == ReadAt(Bits(), old(Pos()), n)
    {
      bits := 0;
      var maxpower, power := Pow2(n), 1;
      ghost var i := 0;
      while power != maxpower
        invariant Valid() && i <= n && Pos() == old(Pos()) + i
        invariant power == Pow2(i) && bits == ReadAt(Bits(), old(Pos()), i)
        decreases n - i
      {
        var b := ReadBit();
        ReadAtSnoc(Bits(), old(Pos()), i);
        bits := bits + BitValue(b) * power;
        power := 2 * power;
        i := i + 1;
      }
      Pow2Injective(i, n);
    }

    method PastEnd() returns (r: bool)
      requires Valid()
      ensures r == (Pos() >= |Bits()|)
    {
      UnpackLength(chars, width);
      PositionOrder(index - 1, |chars|, width, taken);
      r := index > |chars|;
    }
  }

  lemma BitAtPosition(chars: seq<int>, width: nat, i: nat, k: nat)
    requires k < width
    ensures var p, v := i * width + k, if i < |chars| then chars[i] else 0;
            (p < |Unpack(chars, width)| && Unpack(chars, width)[p]) == Bit(v, width - 1 - k)
  {
    UnpackLength(chars, width);
    PositionOrder(i, |chars|, width, k);
    if i < |chars| {
      UnpackAt(chars, width, i, k);
    } else {
      ZeroBit(width - 1 - k);
    }
  }

  lemma {:induction false} ZeroBit(k: nat)
    ensures !Bit(0, k)
  {
    if k > 0 { ZeroBit(k - 1); }
  }

  lemma ReadAtSnoc(bits: seq<bool>, p: nat, i: nat)
    ensures ReadAt(bits, p, i + 1) == ReadAt(bits, p, i) + BitValue(p + i < |bits| && bits[p + i]) * Pow2(i)
  {
    assert Window(bits, p, i + 1) == Window(bits, p, i) + [p + i < |bits| && bits[p + i]];
    LsbValueSnoc(Window(bits, p, i), p + i < |bits| && bits[p + i]);
  }

  lemma {:induction false} Pow2Injective(m: nat, n: nat)
    requires Pow2(m) == Pow2(n)
    ensures m == n
  {
    if m > 0 && n > 0 { Pow2Injective(m - 1, n - 1); }
  }

  /** The variables of one decompression. */
  class Decompressor {
    const data: BitReader
    var dictionary: map<nat, Text>
    var w: Option<Text>
    var enlargeIn: nat
    var dictSize: nat
    var numBits: nat
    var result: Text

    ghost predicate Valid()
      reads this, data
    {
      data.Valid() && enlargeIn >= 1 && numBits > 0
    }

    ghost function View(): Dec
      reads this
    {
      Dec(dictionary, w, Width(enlargeIn, numBits), dictSize, result)
    }

    constructor (data: BitReader, first: Option<Text>)
      requires data.Valid()
      ensures Valid() && View() == DecInit(first) && this.data == data
    {
      this.data := data;
      dictionary := if first.Some? then map[3 := first.value] else map[];
      w, enlargeIn, dictSize, numBits := first, 4, 4, 3;
      result := if first.Some? then first.value else [];
    }

    method GrowIfDue()
      requires numBits > 0
      modifies `enlargeIn, `numBits
      ensures numBits > 0
      ensures Width(enlargeIn, numBits) == if old(enlargeIn) == 0 then Width(Pow2(old(numBits)), old(numBits) + 1)
                                           else old(Width(enlargeIn, numBits))
    {
      if enlargeIn == 0 {
        enlargeIn := Pow2(numBits);
        numBits := numBits + 1;
      }
    }

    /** Enter a first-seen character of `n` bits in the dictionary. */
    method ReadChar(n: nat) returns (c: nat)
      requires Valid()
      modifies this, data
      ensures data.Valid() && numBits > 0 && data.Pos() == old(data.Pos()) + n && c == old(dictSize)
      ensures View() == var v := old(View()); var b := ReadAt(data.Bits(), old(data.Pos()), n);
                        v.(dictionary := v.dictionary[v.dictSize := [FromCharCode(b)]],
                           dictSize := v.dictSize + 1,
                           width := Width(v.width.enlargeIn - 1, v.width.numBits))
    {
      var b := data.ReadCode(n);
      dictionary := dictionary[dictSize := [FromCharCode(b)]];
      dictSize := dictSize + 1;
      c := dictSize - 1;
      enlargeIn := enlargeIn - 1;
    }

    /** Output the phrase of a code and extend the dictionary, or stop. */
    method AcceptCode(c: nat) returns (stop: Option<Outcome>)
      requires Valid()
      modifies this
      ensures Valid()
      ensures match Accept(old(View()), c, data.Pos())
              case Done(outcome) => stop == Some(outcome)
              case Next(_, d) => stop == None && View() == d
    {
      var entry: Text;
      if c in dictionary {
        entry := dictionary[c];
      } else if c == dictSize {
        if w.None? {
          return Some(Throws);
        }
        entry := w.value + CharAt0(w.value);
      } else {
        return Some(Null);
      }
      result := result + entry;
      dictionary := dictionary[dictSize := AsText(w) + CharAt0(entry)];
      dictSize := dictSize + 1;
      enlargeIn := enlargeIn - 1;
      w := Some(entry);
      GrowIfDue();
      stop := None;
    }

    /** One iteration of the main loop. */
    method Step() returns (stop: Option<Outcome>)
      requires Valid()
      modifies this, data
      ensures Valid()
      ensures match DecStep(data.Bits(), old(data.Pos()), old(View()))
              case Done(outcome) => stop == Some(outcome)
              case Next(p, d) => stop == None && data.Pos() == p && View() == d
    {
      hide BitReader.Valid, BitReader.Bits, BitReader.Pos, ReadAt, Pow2, Lookup, FromCharCode;
      var past := data.PastEnd();
      if past {
        return Some(Value([]));
      }
      var c := data.ReadCode(numBits);
      if c == 0 {
        c := ReadChar(8);
      } else if c == 1 {
        c := ReadChar(16);
      } else if c == 2 {
        return Some(Value(result));
      }
      GrowIfDue();
      stop := AcceptCode(c);
    }
  }

  method Decompress(chars: seq<int>, resetValue: nat, ghost bitsPerChar: nat) returns (r: Outcome)
    requires bitsPerChar > 0 && resetValue == Pow2(bitsPerChar - 1)
    ensures r == DecompressSpec(chars, bitsPerChar)
  {
    hide ReadAt, BitReader.Valid, BitReader.Pos, DecStep, Unpack;
    var data := new BitReader(chars, resetValue, bitsPerChar);
    ghost var bits := data.Bits();
    var first: Option<Text> := None;
    var next := data.ReadCode(2);
    if next == 0 {
      var b := data.ReadCode(8);
      first := Some([FromCharCode(b)]);
    } else if next == 1 {
      var b := data.ReadCode(16);
      first := Some([FromCharCode(b)]);
    } else if next == 2 {
      return Value([]);
    }
    var d := new Decompressor(data, first);
    while true
      invariant d.Valid() && d.data == data && fresh(d) && fresh(data)
      invariant DecLoop(bits, data.Pos(), d.View()) == DecompressSpec(chars, bitsPerChar)
      decreases |bits| - data.Pos()
    {
      DecStepProgress(bits, data.Pos(), d.View());
      var stop := d.Step();
      if stop.Some? {
        return stop.value;
      }
    }
  }
}
