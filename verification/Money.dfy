/** centToEuros and eurosToCent of canvashelpers.js: amounts as decimal text. */
module Money {
  import opened Option

  // ---- Decimal numbers ------------------------------------------------------------------------

  predicate IsDigit(c: char) {
    '0' <= c <= '9'
  }

  predicate AllDigits(s: string) {
    forall c :: c in s ==> IsDigit(c)
  }

  /** String(n) of a natural number. */
  function Decimal(n: nat): (r: string)
    ensures r != "" && AllDigits(r)
  {
    var last := ['0' + (n % 10) as char];
    if n < 10 then last else Decimal(n / 10) + last
  }

  /** String(n). */
  function DecimalOf(n: int): string {
    if n < 0 then "-" + Decimal(-n) else Decimal(n)
  }

  lemma NoMarks(s: string)
    requires AllDigits(s)
    ensures '.' !in s && ',' !in s && '-' !in s
    ensures forall i :: 0 <= i < |s| ==> IsDigit(s[i])
    ensures forall i :: 0 <= i <= |s| ==> AllDigits(s[..i]) && AllDigits(s[i..])
  {
    assert forall i :: 0 <= i < |s| ==> s[i] in s;
  }

  function DigitValue(c: char): nat
    requires IsDigit(c)
  {
    (c - '0') as int
  }

  function Value(digits: string): nat
    requires AllDigits(digits)
  {
    if digits == "" then 0 else 10 * Value(digits[..|digits| - 1]) + DigitValue(digits[|digits| - 1])
  }

  lemma {:induction false} ValueOfDecimal(n: nat)
    ensures Value(Decimal(n)) == n
  {
    var s := Decimal(n);
    assert DigitValue(s[|s| - 1]) == n % 10;
    if n >= 10 {
      ValueOfDecimal(n / 10);
      assert s[..|s| - 1] == Decimal(n / 10);
    } else {
      assert s[..|s| - 1] == "";
    }
  }

  /** A number is printed without leading zeros. */
  lemma {:induction false} NoLeadingZero(n: nat)
    ensures Decimal(n)[0] == '0' <==> n == 0
    ensures n == 0 ==> Decimal(n) == "0"
  {
    if n >= 10 {
      NoLeadingZero(n / 10);
      assert Decimal(n)[0] == Decimal(n / 10)[0];
    }
  }

  lemma {:induction false} LeadingZero(digits: string)
    requires AllDigits(digits)
    ensures Value("0" + digits) == Value(digits)
    decreases |digits|
  {
    if digits == "" {
      assert ("0" + digits)[..0] == "";
    } else {
      var n := |digits| - 1;
      assert ("0" + digits)[..n + 1] == "0" + digits[..n];
      LeadingZero(digits[..n]);
    }
  }

  /** The digits at the front of a text. */
  function DigitPrefix(s: string): (r: string)
    ensures AllDigits(r)
  {
    if s == "" || !IsDigit(s[0]) then "" else [s[0]] + DigitPrefix(s[1..])
  }

  lemma {:induction false} DigitPrefixAll(s: string)
    requires AllDigits(s)
    ensures DigitPrefix(s) == s
  {
    if s != "" { DigitPrefixAll(s[1..]); }
  }

  /** White space and line terminators of section 7.1.4.1 of ECMA-262. */
  predicate IsSpace(c: char) {
    var n := c as int;
    9 <= n <= 13 || n == 32 || n == 160 || n == 0x1680 || 0x2000 <= n <= 0x200A
    || n == 0x2028 || n == 0x2029 || n == 0x202F || n == 0x205F || n == 0x3000 || n == 0xFEFF
  }

  function TrimStart(s: string): string {
    if s != "" && IsSpace(s[0]) then TrimStart(s[1..]) else s
  }

  function HexDigitValue(c: char): Option<nat> {
    if IsDigit(c) then Some(DigitValue(c))
    else if 'a' <= c <= 'f' then Some((c - 'a') as int + 10)
    else if 'A' <= c <= 'F' then Some((c - 'A') as int + 10)
    else None
  }

  /** The value of the hexadecimal digits at the front of a text, after those that make `value`. */
  function HexPrefixValue(s: string, value: nat): nat {
    if s == "" || HexDigitValue(s[0]).None? then value
    else HexPrefixValue(s[1..], 16 * value + HexDigitValue(s[0]).value)
  }

  /** The digits of a number, hexadecimal after 0x. */
  function ParseDigits(s: string): Option<nat> {
    if |s| >= 2 && s[0] == '0' && (s[1] == 'x' || s[1] == 'X') then
      if |s| == 2 || HexDigitValue(s[2]).None? then None else Some(HexPrefixValue(s[2..], 0))
    else if DigitPrefix(s) == "" then None
    else Some(Value(DigitPrefix(s)))
  }

  /** parseInt without a radix; None is NaN. */
  function ParseInt(s: string): Option<int> {
    var t := TrimStart(s);
    var digits := if t != "" && (t[0] == '-' || t[0] == '+') then t[1..] else t;
    match ParseDigits(digits)
    case None => None
    case Some(n) => Some(if t != "" && t[0] == '-' then -(n as int) else n)
  }

  /** Nothing but white space. */
  ghost predicate AllSpace(s: string) {
    forall c :: c in s ==> IsSpace(c)
  }

  /** White space, a sign, digits, and something that goes on otherwise: the digits count. */
  lemma ParseIntReads(space: string, sign: string, digits: string, rest: string)
    requires AllSpace(space) && (sign == "" || sign == "-" || sign == "+") && AllDigits(digits) && digits != ""
    requires rest == "" || (!IsDigit(rest[0]) && (digits == "0" ==> rest[0] != 'x' && rest[0] != 'X'))
    ensures ParseInt(space + sign + digits + rest) == Some(if sign == "-" then -(Value(digits) as int) else Value(digits))
  {
    hide Value, IsDigit, IsSpace, TrimStart, ParseDigits, DigitPrefix;
    var number := digits + rest;
    ParseDigitsReads(digits, rest);
    SignedFirst(sign, number);
    TrimStartStops(space, sign + number);
    assert space + sign + digits + rest == space + (sign + number);
    ParseIntOf(space + sign + digits + rest, sign, number);
  }

  lemma ParseIntOf(s: string, sign: string, number: string)
    requires TrimStart(s) == sign + number && (sign == "" || sign == "-" || sign == "+")
    requires sign == "" ==> number == "" || (number[0] != '-' && number[0] != '+')
    ensures ParseInt(s) == match ParseDigits(number)
                           case None => None
                           case Some(n) => Some(if sign == "-" then -(n as int) else n)
  {
    hide TrimStart, ParseDigits;
    assert sign != "" ==> (sign + number)[1..] == number;
    assert "" + number == number;
  }

  /** In the same place 0x and hexadecimal digits. */
  lemma ParseIntReadsHex(space: string, sign: string, x: char, digits: string, rest: string)
    requires AllSpace(space) && (sign == "" || sign == "-" || sign == "+") && (x == 'x' || x == 'X')
    requires digits != "" && (forall c :: c in digits ==> HexDigitValue(c).Some?) && (rest == "" || HexDigitValue(rest[0]).None?)
    ensures ParseInt(space + sign + ("0" + [x] + digits) + rest) ==
            Some(if sign == "-" then -(HexValue(digits) as int) else HexValue(digits))
  {
    hide IsDigit, IsSpace, TrimStart, HexDigitValue, HexPrefixValue, HexValue, ParseDigits;
    var number := "0" + [x] + digits + rest;
    ParseDigitsReadsHex(x, digits, rest);
    ZeroIsDigit();
    SignedFirst(sign, number);
    TrimStartStops(space, sign + number);
    assert space + sign + ("0" + [x] + digits) + rest == space + (sign + number);
    ParseIntOf(space + sign + ("0" + [x] + digits) + rest, sign, number);
  }

  lemma ZeroIsDigit()
    ensures IsDigit('0')
  {
  }

  /** NaN: what follows white space and a sign is no digit. */
  lemma ParseIntFails(space: string, sign: string, rest: string)
    requires AllSpace(space) && (sign == "" || sign == "-" || sign == "+")
    requires rest == "" || !IsDigit(rest[0])
    requires sign == "" && rest != "" ==> !IsSpace(rest[0]) && rest[0] != '-' && rest[0] != '+'
    ensures ParseInt(space + sign + rest) == None
  {
    hide IsSpace, TrimStart;
    assert !IsSpace('-') && !IsSpace('+') by { SignsAreNoSpace(); }
    TrimStartStops(space, sign + rest);
    assert space + sign + rest == space + (sign + rest);
    ParseIntOf(space + sign + rest, sign, rest);
  }

  lemma SignsAreNoSpace()
    ensures !IsSpace('-') && !IsSpace('+')
  {
  }

  lemma SignedFirst(sign: string, number: string)
    requires (sign == "" || sign == "-" || sign == "+") && number != "" && IsDigit(number[0])
    ensures !IsSpace((sign + number)[0]) && number[0] != '-' && number[0] != '+'
  {
  }

  lemma {:induction false} TrimStartStops(space: string, rest: string)
    requires AllSpace(space) && (rest == "" || !IsSpace(rest[0]))
    ensures TrimStart(space + rest) == rest
    decreases |space|
  {
    hide IsSpace;
    if space == "" {
      assert space + rest == rest;
    } else {
      assert space[0] in space && (space + rest)[1..] == space[1..] + rest;
      TrimStartStops(space[1..], rest);
    }
  }

  lemma {:induction false} DigitPrefixOf(digits: string, rest: string)
    requires AllDigits(digits) && (rest == "" || !IsDigit(rest[0]))
    ensures DigitPrefix(digits + rest) == digits
    decreases |digits|
  {
    hide IsDigit;
    if digits == "" {
      assert digits + rest == rest;
    } else {
      assert digits[0] in digits && (digits + rest)[1..] == digits[1..] + rest;
      DigitPrefixOf(digits[1..], rest);
    }
  }

  lemma ParseDigitsReads(digits: string, rest: string)
    requires AllDigits(digits) && digits != ""
    requires rest == "" || (!IsDigit(rest[0]) && (digits == "0" ==> rest[0] != 'x' && rest[0] != 'X'))
    ensures ParseDigits(digits + rest) == Some(Value(digits)) && IsDigit((digits + rest)[0])
  {
    hide Value, DigitPrefix, HexDigitValue;
    DigitPrefixOf(digits, rest);
    NoMarks(digits);
    assert |digits| > 1 ==> IsDigit((digits + rest)[1]);
  }

  /** The number that hexadecimal digits denote. */
  function HexValue(digits: string): nat
    requires forall c :: c in digits ==> HexDigitValue(c).Some?
  {
    if digits == "" then 0 else 16 * HexValue(digits[..|digits| - 1]) + HexDigitValue(digits[|digits| - 1]).value
  }

  lemma {:induction false} HexPrefixOf(before: string, digits: string, rest: string)
    requires forall c :: c in before + digits ==> HexDigitValue(c).Some?
    requires rest == "" || HexDigitValue(rest[0]).None?
    ensures (forall c :: c in before ==> HexDigitValue(c).Some?)
    ensures HexPrefixValue(digits + rest, HexValue(before)) == HexValue(before + digits)
    decreases |digits|
  {
    hide HexDigitValue;
    assert forall c :: c in before ==> c in before + digits;
    if digits == "" {
      assert digits + rest == rest && before + digits == before;
    } else {
      var next := before + [digits[0]];
      assert digits[0] in before + digits && (digits + rest)[1..] == digits[1..] + rest;
      assert next + digits[1..] == before + digits && next[..|before|] == before;
      assert forall c :: c in next ==> c in before + digits;
      HexPrefixOf(next, digits[1..], rest);
    }
  }

  lemma ParseDigitsReadsHex(x: char, digits: string, rest: string)
    requires digits != "" && (forall c :: c in digits ==> HexDigitValue(c).Some?) && (rest == "" || HexDigitValue(rest[0]).None?)
    requires x == 'x' || x == 'X'
    ensures ParseDigits("0" + [x] + digits + rest) == Some(HexValue(digits))
  {
    hide HexDigitValue, HexPrefixValue, HexValue;
    var s := "0" + [x] + digits + rest;
    assert s[2..] == digits + rest && s[2] == digits[0] && digits[0] in digits;
    assert "" + digits == digits;
    HexPrefixOf("", digits, rest);
    HexOfNothing();
  }

  lemma HexOfNothing()
    ensures HexValue("") == 0
  {
  }

  // ---- Printing -------------------------------------------------------------------------------

  /** A dot before every group of three digits from the right. */
  function Group(digits: string): string {
    if |digits| <= 3 then digits
    else
      var n := |digits| - 3;
      Group(digits[..n]) + "." + digits[n..]
  }

  /** At least three digits. */
  function Pad(digits: string): (r: string)
    ensures |r| >= 3
    decreases 3 - |digits|
  {
    if |digits| >= 3 then digits else Pad("0" + digits)
  }

  function Euros(cents: int): string {
    var digits := Pad(Decimal(if cents < 0 then -cents else cents));
    var n := |digits| - 2;
    (if cents < 0 then "-" else "") + Group(digits[..n]) + "," + digits[n..]
  }

  /** Counted from the right, exactly every fourth character is a dot, and the first never is. */
  ghost predicate DotsInPlace(g: string) {
    |g| % 4 != 0 && forall p :: 0 <= p < |g| ==> (g[|g| - 1 - p] == '.' <==> p % 4 == 3)
  }

  lemma OneMoreGroup(h: string, tail: string)
    requires DotsInPlace(h) && |tail| == 3 && '.' !in tail
    ensures DotsInPlace(h + "." + tail)
  {
    var g := h + "." + tail;
    forall p | 0 <= p < |g|
      ensures g[|g| - 1 - p] == '.' <==> p % 4 == 3
    {
      if p >= 4 {
        var q := p - 4;
        assert h[|h| - 1 - q] == '.' <==> q % 4 == 3;
      } else if p < 3 {
        assert g[|g| - 1 - p] == tail[2 - p];
      }
    }
  }

  lemma {:induction false} GroupDots(digits: string)
    requires digits != "" && AllDigits(digits)
    ensures DotsInPlace(Group(digits)) && |Group(digits)| == |digits| + (|digits| - 1) / 3
  {
    hide DotsInPlace, IsDigit;
    NoMarks(digits);
    if |digits| > 3 {
      var n := |digits| - 3;
      GroupDots(digits[..n]);
      NoMarks(digits[n..]);
      OneMoreGroup(Group(digits[..n]), digits[n..]);
    } else {
      FirstGroup(digits);
    }
  }

  lemma FirstGroup(digits: string)
    requires 0 < |digits| <= 3 && '.' !in digits
    ensures DotsInPlace(digits)
  {
  }

  /** str.replace of every occurrence of `c` by nothing. */
  function Without(s: string, c: char): string {
    if s == "" then "" else Without(s[..|s| - 1], c) + (if s[|s| - 1] == c then "" else [s[|s| - 1]])
  }

  lemma {:induction false} WithoutAppend(a: string, b: string, c: char)
    ensures Without(a + b, c) == Without(a, c) + Without(b, c)
    decreases |b|
  {
    if b == "" {
      assert a + b == a;
    } else {
      var n := |b| - 1;
      assert (a + b)[..|a| + n] == a + b[..n];
      WithoutAppend(a, b[..n], c);
    }
  }

  lemma {:induction false} WithoutNone(s: string, c: char)
    requires c !in s
    ensures Without(s, c) == s
  {
    if s != "" { WithoutNone(s[..|s| - 1], c); }
  }

  lemma WithoutJoin(a: string, b: string, c: char)
    requires c !in b
    ensures Without(a + [c] + b, c) == Without(a, c) + b
  {
    hide Without;
    WithoutAppend(a + [c], b, c);
    WithoutAppend(a, [c], c);
    WithoutNone(b, c);
    WithoutSelf(c);
  }

  lemma WithoutSelf(c: char)
    ensures Without([c], c) == ""
  {
    assert [c][..0] == "";
  }

  lemma {:induction false} GroupWithoutDots(digits: string)
    requires AllDigits(digits)
    ensures Without(Group(digits), '.') == digits
    decreases |digits|
  {
    NoMarks(digits);
    if |digits| <= 3 {
      WithoutNone(digits, '.');
    } else {
      var n := |digits| - 3;
      GroupWithoutDots(digits[..n]);
      NoMarks(digits[n..]);
      WithoutJoin(Group(digits[..n]), digits[n..], '.');
      assert digits[..n] + digits[n..] == digits;
    }
  }

  function DigitChar(d: nat): char
    requires d < 10
  {
    '0' + d as char
  }

  /** The last digit of a number. */
  lemma DecimalStep(n: nat)
    ensures n < 10 ==> Decimal(n) == [DigitChar(n)]
    ensures n >= 10 ==> |Decimal(n / 10)| >= 1 && Decimal(n) == Decimal(n / 10) + [DigitChar(n % 10)]
    ensures DigitChar(0) == '0'
  {
  }

  lemma PadOnce(digits: string)
    ensures Pad(digits) == if |digits| >= 3 then digits else Pad("0" + digits)
  {
  }

  lemma PadSplits(n: nat)
    ensures var digits := Pad(Decimal(n));
            var k := |digits| - 2;
            digits[..k] == Decimal(n / 100) && digits[k..] == [DigitChar(n / 10 % 10), DigitChar(n % 10)]
  {
    hide *;
    DecimalStep(n);
    DecimalStep(n / 10);
    DecimalStep(n / 100);
    PadOnce(Decimal(n));
    PadOnce("0" + Decimal(n));
    PadOnce("0" + ("0" + Decimal(n)));
    assert n / 10 / 10 == n / 100;
  }

  /** What is printed: the sign, the whole euros in grouped digits, a comma and two digits of cents. */
  lemma PrintedForm(cents: int)
    ensures var n := if cents < 0 then -cents else cents;
            && Euros(cents) == (if cents < 0 then "-" else "") + Group(Decimal(n / 100)) + ","
                               + [DigitChar(n / 10 % 10), DigitChar(n % 10)]
            && DotsInPlace(Group(Decimal(n / 100))) && Without(Group(Decimal(n / 100)), '.') == Decimal(n / 100)
  {
    hide Decimal, Pad, Group, DotsInPlace, Without;
    var n := if cents < 0 then -cents else cents;
    PadSplits(n);
    GroupDots(Decimal(n / 100));
    GroupWithoutDots(Decimal(n / 100));
  }

  // ---- Parsing --------------------------------------------------------------------------------

  function IndexOf(s: string, c: char): (r: nat)
    requires c in s
    ensures r < |s| && s[r] == c && c !in s[..r]
  {
    if s[0] == c then 0 else 1 + IndexOf(s[1..], c)
  }

  function Zeros(n: int): string {
    seq(if n < 0 then 0 else n, _ => '0')
  }

  function Sign(negative: bool): string {
    if negative then "-" else ""
  }

  /** The amount in cents; None is NaN. */
  function Cents(euros: string): Option<int> {
    var plain := Without(euros, '.');
    var negative := plain != "" && plain[0] == '-';
    var digits := if negative then plain[1..] else plain;
    if ',' in euros then
      var missing := 2 - (|euros| - 1 - IndexOf(euros, ','));
      match ParseInt(Without(digits + Zeros(missing), ','))
      case None => None
      case Some(cents) => ParseInt(Sign(negative) + DecimalOf(cents))
    else ParseInt(Sign(negative) + digits + "00")
  }

  // ---- Round trip -----------------------------------------------------------------------------

  lemma {:induction false} PadKeepsValue(digits: string)
    requires AllDigits(digits)
    ensures AllDigits(Pad(digits)) && Value(Pad(digits)) == Value(digits)
    decreases 3 - |digits|
  {
    if |digits| < 3 {
      LeadingZero(digits);
      PadKeepsValue("0" + digits);
    }
  }

  lemma ParseSigned(negative: bool, digits: string)
    requires AllDigits(digits) && digits != ""
    ensures ParseInt(Sign(negative) + digits) == Some(if negative then -(Value(digits) as int) else Value(digits))
  {
    hide Value, DigitPrefix, IsDigit, IsSpace, ParseDigits;
    DigitPrefixAll(digits);
    FirstDigit(digits);
    assert ("-" + digits)[1..] == digits && "" + digits == digits;
  }

  lemma FirstDigit(digits: string)
    requires AllDigits(digits) && digits != "" && DigitPrefix(digits) == digits
    ensures !IsSpace(digits[0]) && !IsSpace('-') && digits[0] != '-' && digits[0] != '+'
    ensures ParseDigits(digits) == Some(Value(digits))
  {
    hide Value, DigitPrefix;
    NoMarks(digits);
  }

  /** An amount of the usual form: sign, grouped or ungrouped integer digits, comma, decimals. All
      digits count, after zeros have made two decimals of fewer. */
  lemma CentsOf(negative: bool, whole: string, digits: string, decimals: string)
    requires AllDigits(digits) && digits != "" && AllDigits(decimals)
    requires Without(whole, '.') == digits && ',' !in whole && '-' !in whole
    ensures Cents(Sign(negative) + whole + "," + decimals)
         == Some((if negative then -1 else 1) * Value(digits + decimals + Zeros(2 - |decimals|)))
  {
    hide *;
    var zeros := Zeros(2 - |decimals|);
    var all, rest := digits + decimals + zeros, digits + "," + decimals;
    PlainAmount(negative, whole, digits, decimals);
    SignIs(negative);
    CommaAt(Sign(negative) + whole, decimals);
    ZerosAre(2 - |decimals|);
    DigitsJoin(digits, decimals, zeros);
    ParseSigned(false, all);
    assert Sign(false) + all == all;
    CentsAre(Sign(negative) + whole + "," + decimals, negative, rest, 2 - |decimals|, Value(all));
    ValueOfDecimal(Value(all));
    DecimalOfNat(Value(all));
    ParseSigned(negative, Decimal(Value(all)));
  }

  /** The branch of eurosToCent for a text with a comma. */
  lemma CentsAre(euros: string, negative: bool, rest: string, missing: int, cents: int)
    requires Without(euros, '.') == Sign(negative) + rest && rest != "" && rest[0] != '-'
    requires ',' in euros && missing == 2 - (|euros| - 1 - IndexOf(euros, ','))
    requires ParseInt(Without(rest + Zeros(missing), ',')) == Some(cents)
    ensures Cents(euros) == ParseInt(Sign(negative) + DecimalOf(cents))
  {
    hide Without, ParseInt, DecimalOf, IndexOf, Zeros;
    SignSplits(negative, rest);
  }

  lemma SignIs(negative: bool)
    ensures Sign(false) == "" && ',' !in Sign(negative)
  {
  }

  lemma DecimalOfNat(n: nat)
    ensures DecimalOf(n) == Decimal(n)
  {
  }

  /** An amount without a comma is in whole euros. */
  lemma WholeEuros(negative: bool, whole: string, digits: string)
    requires AllDigits(digits) && Without(whole, '.') == digits && ',' !in whole && '-' !in whole
    ensures Cents(Sign(negative) + whole) == Some((if negative then -1 else 1) * (100 * Value(digits)))
  {
    hide *;
    var euros := Sign(negative) + whole;
    SignIs(negative);
    WithoutAppend(Sign(negative), whole, '.');
    SignHasNoDot(negative);
    NoMarks(digits);
    WithoutComma(euros, negative, digits);
    TwoZeros(digits);
    ParseSigned(negative, digits + "00");
    assert Sign(negative) + digits + "00" == Sign(negative) + (digits + "00");
  }

  lemma SignHasNoDot(negative: bool)
    ensures Without(Sign(negative), '.') == Sign(negative)
  {
    WithoutNone(Sign(negative), '.');
  }

  /** The branch of eurosToCent for a text without a comma. */
  lemma WithoutComma(euros: string, negative: bool, digits: string)
    requires Without(euros, '.') == Sign(negative) + digits && ',' !in euros && '-' !in digits
    ensures Cents(euros) == ParseInt(Sign(negative) + digits + "00")
  {
    hide Without, ParseInt;
    assert digits != "" ==> digits[0] in digits;
    var plain := Sign(negative) + digits;
    assert (if negative then plain[1..] else plain) == digits;
  }

  lemma TwoZeros(digits: string)
    requires AllDigits(digits)
    ensures AllDigits(digits + "00") && Value(digits + "00") == 100 * Value(digits)
  {
    ValueOfZero(digits);
    ValueOfZero(digits + "0");
    assert digits + "0" + "0" == digits + "00";
  }

  function Pow10(n: nat): (r: nat)
    ensures r >= 1
  {
    if n == 0 then 1 else 10 * Pow10(n - 1)
  }

  /** Such an amount is Value(digits + decimals) units of 10^-|decimals| euros. The result is that
      amount in cents if and only if there are at most two decimals or it is zero. */
  lemma ExactCents(negative: bool, whole: string, digits: string, decimals: string)
    requires AllDigits(digits) && digits != "" && AllDigits(decimals)
    requires Without(whole, '.') == digits && ',' !in whole && '-' !in whole
    ensures AllDigits(digits + decimals) && Cents(Sign(negative) + whole + "," + decimals).Some?
    ensures var cents := Cents(Sign(negative) + whole + "," + decimals).value;
            cents * Pow10(|decimals|) == (if negative then -1 else 1) * (100 * Value(digits + decimals))
            <==> |decimals| <= 2 || forall c :: c in digits + decimals ==> c == '0'
  {
    hide *;
    var n := |decimals|;
    JoinedDigits(digits, decimals);
    CentsOf(negative, whole, digits, decimals);
    ValueOfZeros(digits + decimals, 2 - n);
    ValueIsZero(digits + decimals);
    ScaledCents(Value(digits + decimals), n, Value(digits + decimals + Zeros(2 - n)), negative);
  }

  lemma JoinedDigits(a: string, b: string)
    requires AllDigits(a) && AllDigits(b)
    ensures AllDigits(a + b)
  {
  }

  /** Adding zeros to make two decimals gives cents; with more decimals only zero stays what it is. */
  lemma ScaledCents(v: nat, n: nat, all: nat, negative: bool)
    requires all == v * Pow10(if n <= 2 then 2 - n else 0)
    ensures ((if negative then -1 else 1) * all) * Pow10(n) == (if negative then -1 else 1) * (100 * v)
            <==> n <= 2 || v == 0
  {
    hide Pow10;
    Powers(n);
    assert (-1 * all) * Pow10(n) == -(all * Pow10(n));
    if n <= 2 {
      assert n == 0 || n == 1 || n == 2;
    } else if v > 0 {
      MoreThan(v, Pow10(n));
    }
  }

  lemma MoreThan(v: nat, p: nat)
    requires v > 0 && p >= 1000
    ensures v * p > 100 * v
  {
    assert v * p == 1000 * v + v * (p - 1000);
    assert v * (p - 1000) >= 0;
  }

  lemma {:induction false} Powers(n: nat)
    ensures Pow10(0) == 1 && Pow10(1) == 10 && Pow10(2) == 100 && (n > 2 ==> Pow10(n) >= 1000)
  {
    if n > 3 { Powers(n - 1); }
  }

  lemma {:induction false} ValueOfZeros(digits: string, n: int)
    requires AllDigits(digits)
    ensures AllDigits(digits + Zeros(n)) && Value(digits + Zeros(n)) == Value(digits) * Pow10(if n < 0 then 0 else n)
    decreases n
  {
    hide *;
    ZerosStep(n);
    if n <= 0 {
      assert digits + Zeros(n) == digits;
      Powers(0);
    } else {
      ValueOfZeros(digits, n - 1);
      ValueOfZero(digits + Zeros(n - 1));
      assert digits + Zeros(n) == digits + Zeros(n - 1) + "0";
      TenTimes(Value(digits), n);
    }
  }

  lemma ZerosStep(n: int)
    ensures Zeros(n) == if n <= 0 then "" else Zeros(n - 1) + "0"
  {
  }

  lemma ValueOfZero(digits: string)
    requires AllDigits(digits)
    ensures AllDigits(digits + "0") && Value(digits + "0") == 10 * Value(digits)
  {
    assert (digits + "0")[..|digits|] == digits;
  }

  lemma TenTimes(v: nat, n: int)
    requires n > 0
    ensures 10 * (v * Pow10(n - 1)) == v * Pow10(n)
  {
  }

  lemma {:induction false} ValueIsZero(digits: string)
    requires AllDigits(digits)
    ensures Value(digits) == 0 <==> forall c :: c in digits ==> c == '0'
    decreases |digits|
  {
    if digits == "" {
      assert Value("") == 0;
    } else {
      var n := |digits| - 1;
      ValueIsZero(digits[..n]);
      assert forall c :: c in digits <==> c in digits[..n] || c == digits[n] by {
        assert digits == digits[..n] + [digits[n]];
      }
      assert digits[n] in digits && (DigitValue(digits[n]) == 0 <==> digits[n] == '0');
      assert Value(digits) == 10 * Value(digits[..n]) + DigitValue(digits[n]);
    }
  }

  lemma ZerosAre(n: int)
    ensures AllDigits(Zeros(n))
  {
  }

  /** Dropping the comma joins the digits. */
  lemma DigitsJoin(digits: string, decimals: string, zeros: string)
    requires AllDigits(digits) && AllDigits(decimals) && AllDigits(zeros)
    ensures Without(digits + "," + decimals + zeros, ',') == digits + decimals + zeros
    ensures AllDigits(digits + decimals + zeros)
  {
    hide Without;
    NoMarks(digits);
    NoMarks(decimals);
    NoMarks(zeros);
    WithoutJoin(digits, decimals + zeros, ',');
    WithoutNone(digits, ',');
    assert digits + "," + decimals + zeros == digits + "," + (decimals + zeros);
    assert digits + decimals + zeros == digits + (decimals + zeros);
  }

  /** Taking the sign off again. */
  lemma SignSplits(negative: bool, rest: string)
    requires rest != "" && rest[0] != '-'
    ensures var plain := Sign(negative) + rest;
            plain != "" && (plain[0] == '-' <==> negative) && (if negative then plain[1..] else plain) == rest
  {
  }

  lemma PlainAmount(negative: bool, whole: string, digits: string, decimals: string)
    requires AllDigits(digits) && digits != "" && AllDigits(decimals) && Without(whole, '.') == digits
    ensures Without(Sign(negative) + whole + "," + decimals, '.') == Sign(negative) + (digits + "," + decimals)
    ensures digits[0] != '-'
  {
    hide Without;
    NoMarks(digits);
    NoMarks(decimals);
    WithoutAppend(Sign(negative) + whole + ",", decimals, '.');
    WithoutAppend(Sign(negative) + whole, ",", '.');
    WithoutAppend(Sign(negative), whole, '.');
    WithoutNone(Sign(negative), '.');
    WithoutNone(",", '.');
    WithoutNone(decimals, '.');
  }

  lemma {:induction false} CommaAt(before: string, after: string)
    requires ',' !in before
    ensures ',' in before + "," + after && IndexOf(before + "," + after, ',') == |before|
    decreases |before|
  {
    var s := before + "," + after;
    assert s[|before|] == ',';
    if before != "" {
      assert s[1..] == before[1..] + "," + after;
      CommaAt(before[1..], after);
    }
  }

  lemma {:induction false} GroupHasNo(digits: string, c: char)
    requires c !in digits && c != '.'
    ensures c !in Group(digits)
    decreases |digits|
  {
    if |digits| > 3 { GroupHasNo(digits[..|digits| - 3], c); }
  }

  /** For every number of cents, parsing what was printed gives it back. */
  lemma MoneyRoundTrip(cents: int)
    ensures Cents(Euros(cents)) == Some(cents)
  {
    hide Without, Value, IsDigit, Decimal, Group, Cents, Pad;
    var n := if cents < 0 then -cents else cents;
    var digits := Pad(Decimal(n));
    var k := |digits| - 2;
    PadKeepsValue(Decimal(n));
    ValueOfDecimal(n);
    NoMarks(digits);
    GroupWithoutDots(digits[..k]);
    GroupHasNo(digits[..k], ',');
    GroupHasNo(digits[..k], '-');
    CentsOf(cents < 0, Group(digits[..k]), digits[..k], digits[k..]);
    assert digits[..k] + digits[k..] + Zeros(0) == digits;
  }

  // ---- The loops ------------------------------------------------------------------------------

  method CentToEuros(cents: int) returns (euros: string)
    ensures euros == Euros(cents)
  {
    hide IsDigit, Decimal, Group;
    var centsStr := DecimalOf(cents);
    var isNegative := false;
    ghost var digits := Decimal(if cents < 0 then -cents else cents);
    NoMarks(digits);
    if centsStr[0] == '-' {
      isNegative := true;
      centsStr := centsStr[1..];
    }
    assert centsStr == digits && isNegative == (cents < 0);
    while |centsStr| < 3
      invariant Pad(centsStr) == Pad(digits)
      decreases 3 - |centsStr|
    {
      centsStr := "0" + centsStr;
    }
    var firstPart, lastPart := centsStr[..|centsStr| - 2], "," + centsStr[|centsStr| - 2..];
    var newFirstPart := GroupsOf(firstPart);
    if |firstPart| % 3 != 0 {
      euros := firstPart[..|firstPart| % 3] + newFirstPart + lastPart;
    } else {
      euros := firstPart[..3] + newFirstPart + lastPart;
    }
    if isNegative {
      euros := "-" + euros;
    }
  }

  /** The loop that puts a dot before each group of three digits but the first. */
  method GroupsOf(firstPart: string) returns (newFirstPart: string)
    requires firstPart != ""
    ensures Group(firstPart) == firstPart[..if |firstPart| % 3 != 0 then |firstPart| % 3 else 3] + newFirstPart
  {
    hide Group;
    newFirstPart := "";
    var n := |firstPart|;
    assert firstPart[..n] == firstPart;
    for i := 0 to (n - 1) / 3
      invariant Group(firstPart) == Group(firstPart[..n - 3 * i]) + newFirstPart
    {
      var from := n - (i + 1) * 3;
      GroupOnce(firstPart, from);
      newFirstPart := "." + firstPart[from..from + 3] + newFirstPart;
    }
    GroupShort(firstPart[..n - 3 * ((n - 1) / 3)]);
  }

  lemma GroupShort(digits: string)
    requires |digits| <= 3
    ensures Group(digits) == digits
  {
  }

  lemma GroupOnce(digits: string, from: nat)
    requires 0 < from && from + 3 <= |digits|
    ensures Group(digits[..from + 3]) == Group(digits[..from]) + "." + digits[from..from + 3]
  {
    assert digits[..from + 3][..from] == digits[..from];
    assert digits[..from + 3][from..] == digits[from..from + 3];
  }

  method EurosToCent(euros: string) returns (cents: Option<int>)
    ensures cents == Cents(euros)
  {
    hide Without, ParseInt, DecimalOf, IndexOf;
    var eurosStr := Without(euros, '.');
    var isNegative := false;
    if eurosStr != "" && eurosStr[0] == '-' {
      isNegative := true;
      eurosStr := eurosStr[1..];
    }
    if ',' in euros {
      var commaPosition := IndexOf(euros, ',');
      var zerosMissing := 2 - (|euros| - 1 - commaPosition);
      ghost var digits := eurosStr;
      var i := 0;
      while i < zerosMissing
        invariant 0 <= i && (i <= zerosMissing || i == 0)
        invariant eurosStr == digits + Zeros(i)
      {
        eurosStr := eurosStr + "0";
        i := i + 1;
      }
      var number := ParseInt(Without(eurosStr, ','));
      if number == None {
        return None;
      }
      cents := ParseInt(Sign(isNegative) + DecimalOf(number.value));
    } else {
      cents := ParseInt(Sign(isNegative) + eurosStr + "00");
    }
  }
}
