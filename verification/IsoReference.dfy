/** The integer conversions as section 7.21.6.1 of ISO/IEC 9899:2011 describes them, and where the C code agrees. */
module IsoReference {
  import opened Numerals
  import opened FormatParser
  import opened Sinks
  import opened Conversions

  /** The character of a digit: 0 to 9, then letters from a or A. */
  function DigitChar(d: nat, capital: bool): char
    requires d < 16
  {
    if d < 10 then '0' + d as char else (if capital then 'A' else 'a') + (d - 10) as char
  }

  function IsoBase(conv: Conversion): (b: nat)
    ensures 8 <= b <= 16
  {
    match conv
    case Octal => 8
    case Hex => 16
    case HexCapital => 16
    case VoidPointer => 16
    case _ => 10
  }

  /** The digits of a conversion, in order. */
  function IsoAlphabet(conv: Conversion): (a: string)
    ensures |a| == IsoBase(conv)
  {
    seq(IsoBase(conv), d requires 0 <= d < IsoBase(conv) => DigitChar(d, conv.HexCapital?))
  }

  /** The alphabets of the C code are these. */
  lemma AlphabetIsIso(conv: Conversion)
    ensures Alphabet(conv) == IsoAlphabet(conv)
  {
    SameDecimal();
    SameLower();
    SameUpper();
    SameOctal();
  }

  lemma SameDecimal()
    ensures DECIMAL == seq(10, d requires 0 <= d < 10 => DigitChar(d, false))
  {}

  lemma SameOctal()
    ensures OCTAL == seq(8, d requires 0 <= d < 8 => DigitChar(d, false))
  {}

  lemma SameLower()
    ensures LOWER == seq(16, d requires 0 <= d < 16 => DigitChar(d, false))
  {}

  lemma SameUpper()
    ensures UPPER == seq(16, d requires 0 <= d < 16 => DigitChar(d, true))
  {}

  /** "the precision specifies the minimum number of digits to appear"; it defaults to 1, and zero with a
      precision of zero has no digits. */
  function IsoDigits(val: nat, spec: Spec, precision: nat): string {
    var p := if spec.hasPrecision then precision else 1;
    if val == 0 && p == 0 then ""
    else
      var digits := Numeral(val, IsoAlphabet(spec.conv));
      Times('0', if p > |digits| then p - |digits| else 0) + digits
  }

  /** The alternate form of o makes the first digit a zero. */
  function IsoOctal(digits: string, spec: Spec): string {
    if spec.conv.Octal? && spec.flags.alternate && (digits == "" || digits[0] != '0') then "0" + digits else digits
  }

  function IsoPrefix(val: nat, spec: Spec, sign: Sign): string {
    if spec.conv.Signed? then
      if sign.Minus? then "-" else if spec.flags.sign then "+" else if spec.flags.blank then " " else ""
    else if spec.flags.alternate && val != 0 then
      match spec.conv
      case HexCapital => "0X"
      case Hex => "0x"
      case VoidPointer => "0x"
      case _ => ""
    else ""
  }

  function IsoInt(val: nat, spec: Spec, sign: Sign, width: nat, precision: nat): string {
    var body := IsoOctal(IsoDigits(val, spec, precision), spec);
    var prefix := IsoPrefix(val, spec, sign);
    var gap := if spec.hasWidth && width > |prefix| + |body| then width - (|prefix| + |body|) else 0;
    if spec.flags.leftAdjusted then prefix + body + Times(' ', gap)
    else if spec.flags.zeroPadded && !spec.hasPrecision then prefix + Times('0', gap) + body
    else Times(' ', gap) + prefix + body
  }

  /** do_printf marks the sign of signed arguments only. */
  predicate SignFits(val: nat, spec: Spec, sign: Sign) {
    if spec.conv.Signed? then sign.Plus? || (sign.Minus? && val > 0) else sign.NoSign?
  }

  /** The C code returns before it pads when the value and the precision are both zero. */
  predicate ZeroWithZeroPrecision(val: nat, spec: Spec, precision: nat) {
    spec.hasPrecision && precision == 0 && val == 0
  }

  lemma NumeralStart(val: nat, alphabet: string)
    requires |alphabet| >= 2 && alphabet[0] == '0' && forall i | 0 < i < |alphabet| :: alphabet[i] != '0'
    ensures Numeral(val, alphabet)[0] == '0' <==> val == 0
  {
    DigitsNumeral(val, |alphabet|);
    EvalOne([val], |alphabet|);
  }

  lemma AlphabetStart(conv: Conversion)
    ensures Alphabet(conv)[0] == '0' && forall i | 0 < i < |Alphabet(conv)| :: Alphabet(conv)[i] != '0'
  {}

  lemma ZerosCommute(k: nat)
    ensures Times('0', k) + "0" == "0" + Times('0', k)
  {}

  /** The number part of the C text, before padding: octal's extra zero comes first in both. */
  lemma SameBody(val: nat, spec: Spec, sign: Sign, precision: nat)
    requires IsNumber(spec.conv) && SignFits(val, spec, sign) && !ZeroWithZeroPrecision(val, spec, precision)
    ensures var digits := Numeral(val, Alphabet(spec.conv));
            var zeros := if spec.hasPrecision && precision > |digits| then precision - |digits| else 0;
            var octal := spec.conv.Octal? && spec.flags.alternate && val != 0 && zeros == 0;
            && IsoDigits(val, spec, precision) == Times('0', zeros) + digits
            && IsoOctal(IsoDigits(val, spec, precision), spec)
               == (if octal then "0" else "") + Times('0', zeros) + digits
            && Prefix(val, spec, sign, zeros) == IsoPrefix(val, spec, sign) + if octal then "0" else ""
  {
    hide Numeral, Alphabet, IsoAlphabet;
    AlphabetIsIso(spec.conv);
    AlphabetStart(spec.conv);
    NumeralStart(val, Alphabet(spec.conv));
    var digits := Numeral(val, Alphabet(spec.conv));
    var zeros := if spec.hasPrecision && precision > |digits| then precision - |digits| else 0;
    assert Times('0', 0) + digits == digits;
    assert zeros > 0 ==> (Times('0', zeros) + digits)[0] == '0';
  }

  lemma LayoutLeft(p: string, o: string, zeros: string, d: string, gap: string)
    ensures "" + (p + o) + zeros + d + gap == p + (o + zeros + d) + gap
  {}

  lemma LayoutZero(p: string, o: string, gap: string, d: string)
    requires o + gap == gap + o
    ensures "" + (p + o) + gap + d + "" == p + gap + (o + "" + d)
  {
    assert "" + (p + o) + gap + d + "" == p + (o + gap) + d;
    assert p + (gap + o) + d == p + gap + (o + "" + d);
  }

  lemma LayoutRight(p: string, o: string, zeros: string, d: string, gap: string)
    ensures gap + (p + o) + zeros + d + "" == gap + p + (o + zeros + d)
  {}

  lemma NoTimes(c: char)
    ensures Times(c, 0) == ""
  {}

  lemma SameLeft(val: nat, spec: Spec, sign: Sign, width: nat, precision: nat)
    requires IsNumber(spec.conv) && SignFits(val, spec, sign) && !ZeroWithZeroPrecision(val, spec, precision)
    requires spec.flags.leftAdjusted
    ensures IntText(val, spec, sign, width, precision) == IsoInt(val, spec, sign, width, precision)
  {
    hide Numeral, Alphabet, Prefix, IsoPrefix, IsoDigits, IsoOctal, Times;
    SameBody(val, spec, sign, precision);
    NoTimes(' ');
    NoTimes('0');
    var d := Numeral(val, Alphabet(spec.conv));
    var zeros := if spec.hasPrecision && precision > |d| then precision - |d| else 0;
    var o := if spec.conv.Octal? && spec.flags.alternate && val != 0 && zeros == 0 then "0" else "";
    var p := IsoPrefix(val, spec, sign);
    var body := |p| + |o| + zeros + |d|;
    var gap := if spec.hasWidth && width > body then width - body else 0;
    LayoutLeft(p, o, Times('0', zeros), d, Times(' ', gap));
  }

  lemma SameZero(val: nat, spec: Spec, sign: Sign, width: nat, precision: nat)
    requires IsNumber(spec.conv) && SignFits(val, spec, sign) && !ZeroWithZeroPrecision(val, spec, precision)
    requires !spec.flags.leftAdjusted && spec.flags.zeroPadded && !spec.hasPrecision
    ensures IntText(val, spec, sign, width, precision) == IsoInt(val, spec, sign, width, precision)
  {
    hide Numeral, Alphabet, Prefix, IsoPrefix, IsoDigits, IsoOctal, Times;
    SameBody(val, spec, sign, precision);
    NoTimes(' ');
    NoTimes('0');
    var d := Numeral(val, Alphabet(spec.conv));
    var zeros := if spec.hasPrecision && precision > |d| then precision - |d| else 0;
    var o := if spec.conv.Octal? && spec.flags.alternate && val != 0 && zeros == 0 then "0" else "";
    var p := IsoPrefix(val, spec, sign);
    var body := |p| + |o| + zeros + |d|;
    var gap := if spec.hasWidth && width > body then width - body else 0;
    ZerosCommute(gap);
    LayoutZero(p, o, Times('0', gap), d);
  }

  lemma SameRight(val: nat, spec: Spec, sign: Sign, width: nat, precision: nat)
    requires IsNumber(spec.conv) && SignFits(val, spec, sign) && !ZeroWithZeroPrecision(val, spec, precision)
    requires !spec.flags.leftAdjusted && !(spec.flags.zeroPadded && !spec.hasPrecision)
    ensures IntText(val, spec, sign, width, precision) == IsoInt(val, spec, sign, width, precision)
  {
    hide Numeral, Alphabet, Prefix, IsoPrefix, IsoDigits, IsoOctal, Times;
    SameBody(val, spec, sign, precision);
    NoTimes(' ');
    NoTimes('0');
    var d := Numeral(val, Alphabet(spec.conv));
    var zeros := if spec.hasPrecision && precision > |d| then precision - |d| else 0;
    var o := if spec.conv.Octal? && spec.flags.alternate && val != 0 && zeros == 0 then "0" else "";
    var p := IsoPrefix(val, spec, sign);
    var body := |p| + |o| + zeros + |d|;
    var gap := if spec.hasWidth && width > body then width - body else 0;
    LayoutRight(p, o, Times('0', zeros), d, Times(' ', gap));
  }

  /** Unless value and precision are both zero, the C text is the ISO text. */
  lemma SameText(val: nat, spec: Spec, sign: Sign, width: nat, precision: nat)
    requires IsNumber(spec.conv) && SignFits(val, spec, sign) && !ZeroWithZeroPrecision(val, spec, precision)
    ensures IntText(val, spec, sign, width, precision) == IsoInt(val, spec, sign, width, precision)
  {
    hide *;
    if spec.flags.leftAdjusted {
      SameLeft(val, spec, sign, width, precision);
    } else if spec.flags.zeroPadded && !spec.hasPrecision {
      SameZero(val, spec, sign, width, precision);
    } else {
      SameRight(val, spec, sign, width, precision);
    }
  }

  /** When there is nothing for the ISO text to show: no field to pad, no sign and no octal zero. */
  predicate NothingToShow(spec: Spec, width: nat) {
    !(spec.hasWidth && width > 0) && !(spec.conv.Signed? && (spec.flags.sign || spec.flags.blank))
    && !(spec.conv.Octal? && spec.flags.alternate)
  }

  /** do_conversion_int prints what the standard says exactly when the value and the precision are not both zero,
      or there is nothing to show anyway. */
  lemma IntMeetsIso(val: nat, spec: Spec, sign: Sign, width: nat, precision: nat)
    requires IsNumber(spec.conv) && SignFits(val, spec, sign)
    ensures IntText(val, spec, sign, width, precision) == IsoInt(val, spec, sign, width, precision)
            <==> !ZeroWithZeroPrecision(val, spec, precision) || NothingToShow(spec, width)
  {
    if !ZeroWithZeroPrecision(val, spec, precision) {
      SameText(val, spec, sign, width, precision);
    } else {
      hide Numeral, Alphabet;
      assert IsoDigits(val, spec, precision) == "";
      var body := IsoOctal("", spec);
      assert |body| == if spec.conv.Octal? && spec.flags.alternate then 1 else 0;
      var prefix := IsoPrefix(val, spec, sign);
      assert |prefix| == if spec.conv.Signed? && (spec.flags.sign || spec.flags.blank) then 1 else 0;
      assert |IsoInt(val, spec, sign, width, precision)| == Max(if spec.hasWidth then width else 0, |prefix| + |body|);
    }
  }

  /** %5.0d of zero prints nothing where the standard asks for five spaces. */
  lemma ZeroLosesItsField()
    ensures var spec := Spec(NO_FLAGS, true, true, NO_LENGTHS, Signed);
            IntText(0, spec, Plus, 5, 0) == "" && IsoInt(0, spec, Plus, 5, 0) == "     "
  {}

  // ------------------------------------------------------------ what the digits say

  /** The characters of text are digits of the alphabet, and their value is v. */
  ghost predicate Spells(text: string, alphabet: string, v: nat) {
    exists ds: seq<nat> :: SpelledBy(text, alphabet, ds) && Eval(ds, |alphabet|) == v
  }

  ghost predicate SpelledBy(text: string, alphabet: string, ds: seq<nat>) {
    |ds| == |text| && forall i | 0 <= i < |ds| :: ds[i] < |alphabet| && text[i] == alphabet[ds[i]]
  }

  lemma {:induction false} LeadingZeros(k: nat, ds: seq<nat>, base: nat)
    requires base >= 2
    ensures Eval(seq(k, _ => 0) + ds, base) == Eval(ds, base)
    decreases |ds|, k
  {
    var zs := seq(k, _ => 0);
    if ds == [] {
      assert zs + ds == zs;
      if k > 0 {
        assert zs[..k - 1] == seq(k - 1, _ => 0);
        LeadingZeros(k - 1, [], base);
        assert seq(k - 1, _ => 0) + [] == zs[..k - 1];
      }
    } else {
      var front := ds[..|ds| - 1];
      LeadingZeros(k, front, base);
      assert (zs + ds)[..|zs + ds| - 1] == zs + front;
    }
  }

  lemma LayoutBody(a: string, prefix: string, zeros: string, digits: string, e: string)
    ensures a + prefix + (zeros + digits) + e == a + prefix + zeros + digits + e
  {}

  lemma PaddedNumeral(k: nat, val: nat, alphabet: string)
    requires |alphabet| >= 2 && alphabet[0] == '0'
    ensures Spells(Times('0', k) + Numeral(val, alphabet), alphabet, val)
  {
    var base := |alphabet|;
    var ds := seq(k, _ => 0) + Digits(val, base);
    DigitsNumeral(val, base);
    DigitsEval(val, base);
    LeadingZeros(k, Digits(val, base), base);
    assert SpelledBy(Times('0', k) + Numeral(val, alphabet), alphabet, ds);
  }

  /** A number prints as spaces, prefix, digits that spell its value, spaces, and is as long as the widest of
      the field and what it has to show. */
  lemma IntTextSpells(val: nat, spec: Spec, sign: Sign, width: nat, precision: nat)
    returns (l: nat, r: nat, body: string)
    requires IsNumber(spec.conv) && !ZeroWithZeroPrecision(val, spec, precision)
    ensures var digits := Numeral(val, Alphabet(spec.conv));
            var zeros := if spec.hasPrecision && precision > |digits| then precision - |digits| else 0;
            var prefix := Prefix(val, spec, sign, zeros);
            var text := IntText(val, spec, sign, width, precision);
            && |text| == Max(if spec.hasWidth then width else 0,
                             |prefix| + Max(if spec.hasPrecision then precision else 0, |digits|))
            && text == Times(' ', l) + prefix + body + Times(' ', r) && Spells(body, Alphabet(spec.conv), val)
  {
    hide Numeral, Alphabet, Prefix, Spells, Times;
    AlphabetStart(spec.conv);
    var digits := Numeral(val, Alphabet(spec.conv));
    var zeros := if spec.hasPrecision && precision > |digits| then precision - |digits| else 0;
    var prefix := Prefix(val, spec, sign, zeros);
    var pad := Pad(spec, width, zeros, |prefix| + zeros + |digits|);
    PaddedNumeral(pad.leftzero, val, Alphabet(spec.conv));
    l, r, body := pad.leftsp, pad.rightsp, Times('0', pad.leftzero) + digits;
    LayoutBody(Times(' ', l), prefix, Times('0', pad.leftzero), digits, Times(' ', r));
  }
}
