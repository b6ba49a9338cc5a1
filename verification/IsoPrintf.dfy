/** Whole directives against section 7.21.6.1 of ISO/IEC 9899:2011: the length modifiers h and hh, and strings. */
module IsoPrintf {
  import opened Numerals
  import opened FormatParser
  import opened Sinks
  import opened Conversions
  import opened IsoReference
  import opened Printf

  // ---------------------------------------------------------------- reading a number back

  /** The digit that a character is in an alphabet, or -1. */
  ghost function DigitOf(c: char, alphabet: string): (d: int)
    ensures -1 <= d < |alphabet|
    ensures d == -1 <==> c !in alphabet
    ensures d >= 0 ==> alphabet[d] == c
  {
    if c in alphabet then
      var i :| 0 <= i < |alphabet| && alphabet[i] == c; i
    else -1
  }

  /** The number that the digits of a text make up, whatever stands between them, read on from n. */
  ghost function ReadFrom(n: nat, s: string, alphabet: string): nat
    decreases |s|
  {
    if s == "" then n
    else
      var d := DigitOf(s[0], alphabet);
      ReadFrom(if d >= 0 then n * |alphabet| + d else n, s[1..], alphabet)
  }

  lemma {:induction false} ReadSplit(n: nat, s: string, t: string, alphabet: string)
    ensures ReadFrom(n, s + t, alphabet) == ReadFrom(ReadFrom(n, s, alphabet), t, alphabet)
    decreases |s|
  {
    if s == "" {
      assert s + t == t;
    } else {
      assert (s + t)[1..] == s[1..] + t;
      var d := DigitOf(s[0], alphabet);
      ReadSplit(if d >= 0 then n * |alphabet| + d else n, s[1..], t, alphabet);
    }
  }

  lemma {:induction false} ReadSkips(n: nat, s: string, alphabet: string)
    requires forall i | 0 <= i < |s| :: s[i] !in alphabet
    ensures ReadFrom(n, s, alphabet) == n
    decreases |s|
  {
    if s != "" { ReadSkips(n, s[1..], alphabet); }
  }

  /** Leading zeros, spaces, signs and the x of a prefix do not count. */
  lemma {:induction false} ReadNothing(s: string, alphabet: string)
    requires forall i | 0 <= i < |s| :: DigitOf(s[i], alphabet) <= 0
    ensures ReadFrom(0, s, alphabet) == 0
    decreases |s|
  {
    if s != "" { ReadNothing(s[1..], alphabet); }
  }

  ghost predicate Distinct(alphabet: string) {
    forall i, j | 0 <= i < j < |alphabet| :: alphabet[i] != alphabet[j]
  }

  lemma {:induction false} ReadSpelling(ds: seq<nat>, alphabet: string)
    requires Distinct(alphabet) && forall i | 0 <= i < |ds| :: ds[i] < |alphabet|
    ensures ReadFrom(0, Spell(ds, alphabet), alphabet) == Eval(ds, |alphabet|)
    decreases |ds|
  {
    if ds != [] {
      var front, d := ds[..|ds| - 1], ds[|ds| - 1];
      ReadSpelling(front, alphabet);
      assert Spell(ds, alphabet) == Spell(front, alphabet) + [alphabet[d]];
      ReadSplit(0, Spell(front, alphabet), [alphabet[d]], alphabet);
      ReadOne(ReadFrom(0, Spell(front, alphabet), alphabet), d, alphabet);
    }
  }

  lemma ReadOne(n: nat, d: nat, alphabet: string)
    requires Distinct(alphabet) && d < |alphabet|
    ensures ReadFrom(n, [alphabet[d]], alphabet) == n * |alphabet| + d
  {
    var e := DigitOf(alphabet[d], alphabet);
    assert alphabet[e] == alphabet[d];
    assert [alphabet[d]][1..] == "";
  }

  lemma ReadNumeral(v: nat, alphabet: string)
    requires Distinct(alphabet) && |alphabet| >= 2
    ensures ReadFrom(0, Numeral(v, alphabet), alphabet) == v
  {
    DigitsNumeral(v, |alphabet|);
    DigitsEval(v, |alphabet|);
    ReadSpelling(Digits(v, |alphabet|), alphabet);
  }

  ghost predicate Plain(a: string) {
    Distinct(a) && ' ' !in a && '-' !in a && '+' !in a && 'x' !in a && 'X' !in a && a != "" && a[0] == '0'
  }

  lemma PlainDecimal()
    ensures Plain(DECIMAL)
  {}

  lemma PlainOctal()
    ensures Plain(OCTAL)
  {}

  lemma PlainLower()
    ensures Plain(LOWER)
  {}

  lemma PlainUpper()
    ensures Plain(UPPER)
  {}

  /** The alphabets have no sign, no blank and no x, and start with 0. */
  lemma Alphabets(conv: Conversion)
    ensures Plain(Alphabet(conv)) && DigitOf('0', Alphabet(conv)) == 0
  {
    hide Plain;
    PlainDecimal();
    PlainOctal();
    PlainLower();
    PlainUpper();
    ZeroFirst(Alphabet(conv));
  }

  lemma ZeroFirst(a: string)
    requires Plain(a)
    ensures DigitOf('0', a) == 0
  {
    var d := DigitOf('0', a);
    assert a[d] == a[0];
  }

  /** Padding, prefix and zeros in front of a number, and blanks behind it, do not change what it reads as. */
  lemma ReadPadded(front: string, v: nat, gap: nat, a: string)
    requires Plain(a) && |a| >= 2 && forall i | 0 <= i < |front| :: DigitOf(front[i], a) <= 0
    ensures ReadFrom(0, front + Numeral(v, a) + Times(' ', gap), a) == v
  {
    hide Numeral;
    ReadSplit(0, front + Numeral(v, a), Times(' ', gap), a);
    ReadSplit(0, front, Numeral(v, a), a);
    ReadNothing(front, a);
    ReadNumeral(v, a);
    ReadSkips(v, Times(' ', gap), a);
  }

  /** What do_conversion_int prints of a number reads as that number, and has a minus sign exactly when asked. */
  lemma IntTextReads(val: nat, spec: Spec, sign: Sign, width: nat, precision: nat)
    requires IsNumber(spec.conv) && SignFits(val, spec, sign)
    ensures var text := IntText(val, spec, sign, width, precision);
      ReadFrom(0, text, Alphabet(spec.conv)) == val && ('-' in text <==> sign.Minus?)
  {
    hide Numeral, Alphabet, Times, Prefix;
    var a := Alphabet(spec.conv);
    if !ZeroWithZeroPrecision(val, spec, precision) {
      Alphabets(spec.conv);
      var digits := Numeral(val, a);
      var zeros := if spec.hasPrecision && precision > |digits| then precision - |digits| else 0;
      var prefix := Prefix(val, spec, sign, zeros);
      var pad := Pad(spec, width, zeros, |prefix| + zeros + |digits|);
      var front := Times(' ', pad.leftsp) + prefix + Times('0', pad.leftzero);
      PrefixReads(val, spec, sign, zeros);
      NumeralHas(val, a);
      FrontReads(pad.leftsp, prefix, pad.leftzero, a);
      ReadPadded(front, val, pad.rightsp, a);
    }
  }

  lemma FrontReads(spaces: nat, prefix: string, zeros: nat, a: string)
    requires Plain(a) && DigitOf('0', a) == 0 && forall i | 0 <= i < |prefix| :: DigitOf(prefix[i], a) <= 0
    ensures var front := Times(' ', spaces) + prefix + Times('0', zeros);
      && (forall i | 0 <= i < |front| :: DigitOf(front[i], a) <= 0)
      && ('-' in front <==> '-' in prefix)
  {
    var front := Times(' ', spaces) + prefix + Times('0', zeros);
    if '-' in prefix {
      var i :| 0 <= i < |prefix| && prefix[i] == '-';
      assert front[spaces + i] == '-';
    }
  }

  lemma PrefixReads(val: nat, spec: Spec, sign: Sign, zeros: nat)
    requires IsNumber(spec.conv) && SignFits(val, spec, sign)
    ensures var p := Prefix(val, spec, sign, zeros);
      (forall i | 0 <= i < |p| :: DigitOf(p[i], Alphabet(spec.conv)) <= 0) && ('-' in p <==> sign.Minus?)
  {
    hide Alphabet;
    Alphabets(spec.conv);
  }

  lemma NumeralHas(val: nat, a: string)
    requires Plain(a) && |a| >= 2
    ensures '-' !in Numeral(val, a)
  {
    DigitsNumeral(val, |a|);
  }

  /** So does the text of the standard. */
  lemma IsoIntReads(val: nat, spec: Spec, sign: Sign, width: nat, precision: nat)
    requires IsNumber(spec.conv) && SignFits(val, spec, sign)
    ensures var text := IsoInt(val, spec, sign, width, precision);
      ReadFrom(0, text, Alphabet(spec.conv)) == val && ('-' in text <==> sign.Minus?)
  {
    hide Numeral, Alphabet, IntText;
    if !ZeroWithZeroPrecision(val, spec, precision) {
      SameText(val, spec, sign, width, precision);
      IntTextReads(val, spec, sign, width, precision);
    } else {
      var text := IsoInt(val, spec, sign, width, precision);
      Alphabets(spec.conv);
      assert IsoDigits(val, spec, precision) == "";
      assert forall i | 0 <= i < |text| :: text[i] in " +0";
      ReadNothing(text, Alphabet(spec.conv));
    }
  }

  // ---------------------------------------------------------------- the length modifiers

  /** The argument after the conversion that its length modifier asks for: hh to a char, h to a short. */
  function Narrowed(v: int, length: LengthSet, signed: bool): int {
    if length.charLength then ToBits(v, 0x100, signed)
    else if length.short then ToBits(v, 0x1_0000, signed)
    else if signed then AsSigned(v, Wide(length)) else AsUnsigned(v, Wide(length))
  }

  function ToBits(v: int, size: nat, signed: bool): int
    requires size > 0
  {
    var u := v % size;
    if signed && u >= size / 2 then u - size else u
  }

  /** What the C code converts: h and hh read an int and leave it as it is. */
  function AsRead(v: int, length: LengthSet, signed: bool): int {
    if signed then AsSigned(v, Wide(length)) else AsUnsigned(v, Wide(length))
  }

  function SignOf(v: int, signed: bool): Sign {
    if !signed then NoSign else if v < 0 then Minus else Plus
  }

  function IsoConverted(spec: Spec, width: nat, precision: nat, v: int): string {
    var n := Narrowed(v, spec.length, spec.conv.Signed?);
    IsoInt(Abs(n), spec, SignOf(n, spec.conv.Signed?), width, precision)
  }

  /** An integer directive prints what the standard says exactly when its argument fits the length modifier, and value
      and precision are not both zero or nothing is to be shown. */
  lemma ConvertedMeetsIso(spec: Spec, width: nat, precision: nat, v: int, rest: seq<Arg>)
    requires IsNumber(spec.conv) && !spec.conv.VoidPointer?
    ensures var n := Narrowed(v, spec.length, spec.conv.Signed?);
      Converted(spec, width, precision, [Integer(v)] + rest) == IsoConverted(spec, width, precision, v)
      <==> n == AsRead(v, spec.length, spec.conv.Signed?)
           && (!ZeroWithZeroPrecision(Abs(n), spec, precision) || NothingToShow(spec, width))
  {
    hide IntText, IsoInt, Alphabet, AsSigned, AsUnsigned, Wide, Narrowed, NothingToShow;
    var signed := spec.conv.Signed?;
    var a, n := AsRead(v, spec.length, signed), Narrowed(v, spec.length, signed);
    NonNegative(v, spec.length);
    assert NextInt([Integer(v)] + rest) == v;
    IntTextReads(Abs(a), spec, SignOf(a, signed), width, precision);
    IsoIntReads(Abs(n), spec, SignOf(n, signed), width, precision);
    if a == n { IntMeetsIso(Abs(a), spec, SignOf(a, signed), width, precision); }
  }

  lemma NonNegative(v: int, length: LengthSet)
    ensures Narrowed(v, length, false) >= 0 && AsRead(v, length, false) >= 0
  {}

  /** %hhd of 300: the standard converts it to 44, the C code does not. */
  lemma CharLengthIsIgnored()
    ensures var length := NO_LENGTHS.(short := true, charLength := true);
      var spec := Spec(NO_FLAGS, false, false, length, Signed);
      && Narrowed(300, length, true) == 44 && AsRead(300, length, true) == 300
      && Converted(spec, 0, 0, [Integer(300)]) != IsoConverted(spec, 0, 0, 300)
  {
    hide Converted, IsoConverted;
    var spec := Spec(NO_FLAGS, false, false, NO_LENGTHS.(short := true, charLength := true), Signed);
    assert [Integer(300)] + [] == [Integer(300)];
    ConvertedMeetsIso(spec, 0, 0, 300, []);
  }

  // ---------------------------------------------------------------- strings

  /** The text that the standard asks of %s: as much of the string as the precision allows, in a field of at least the
      width, padded with blanks on the side that the minus flag selects. */
  ghost predicate IsStringField(text: string, str: string, spec: Spec, width: nat, precision: nat) {
    exists gap: nat, n: nat :: StringField(text, str, spec, width, precision, gap, n)
  }

  ghost predicate StringField(text: string, str: string, spec: Spec, width: nat, precision: nat, gap: nat, n: nat) {
    && n <= |str| && (spec.hasPrecision ==> n <= precision)
    && (n == |str| || (spec.hasPrecision && n == precision))
    && |text| == gap + n && |text| == Max(if spec.hasWidth then width else 0, n)
    && forall i | 0 <= i < |text| :: text[i] == FieldChar(str, spec, gap, n, i)
  }

  /** Character i of the field: one of the n characters of the string, or a blank of the gap. */
  ghost function FieldChar(str: string, spec: Spec, gap: nat, n: nat, i: nat): char
    requires i < gap + n && n <= |str|
  {
    if spec.flags.leftAdjusted then (if i < n then str[i] else ' ') else if i < gap then ' ' else str[i - gap]
  }

  lemma StringMeetsIso(text: string, str: string, spec: Spec, width: nat, precision: nat)
    ensures text == StringText(str, spec, width, precision) <==> IsStringField(text, str, spec, width, precision)
  {
    var iso := StringText(str, spec, width, precision);
    var n := if spec.hasPrecision && precision < |str| then precision else |str|;
    assert StringField(iso, str, spec, width, precision, |iso| - n, n);
    if IsStringField(text, str, spec, width, precision) {
      var gap: nat, k: nat :| StringField(text, str, spec, width, precision, gap, k);
      assert k == n && |text| == |iso| && gap == |iso| - n;
      FieldUnique(text, iso, str, spec, width, precision, gap, n);
    }
  }

  lemma FieldUnique(s: string, t: string, str: string, spec: Spec, width: nat, precision: nat, gap: nat, n: nat)
    requires StringField(s, str, spec, width, precision, gap, n) && StringField(t, str, spec, width, precision, gap, n)
    ensures s == t
  {
    forall i | 0 <= i < |s| ensures s[i] == t[i] {}
  }
}
