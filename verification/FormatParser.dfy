/** parse_format: one directive of a printf format, %[flags][width][.[precision]][length]<conversion>. */
module FormatParser {
  import opened Numerals

  /** The bits that parse_format can set, grouped; conv stands for the conversion bits. */
  datatype Spec = Spec(flags: FlagSet, hasWidth: bool, hasPrecision: bool, length: LengthSet, conv: Conversion)

  datatype FlagSet = FlagSet(alternate: bool, zeroPadded: bool, leftAdjusted: bool, blank: bool, sign: bool)

  datatype LengthSet = LengthSet(short: bool, charLength: bool, long: bool, longLong: bool, intMax: bool, size: bool,
                                 ptrDiff: bool)

  datatype Conversion = Signed | Octal | Unsigned | HexCapital | Hex | Character | CharPointer | VoidPointer
    | Percent | Unknown

  datatype Parsed = EndString | Directive(spec: Spec, width: nat, precision: nat)

  const NO_FLAGS := FlagSet(false, false, false, false, false)
  const NO_LENGTHS := LengthSet(false, false, false, false, false, false, false)

  predicate IsFlag(c: char) { c in "#0- +" }

  predicate IsDigit(c: char) { '0' <= c <= '9' }

  predicate IsLength(c: char) { c in "hljzt" }

  function AddFlag(r: FlagSet, c: char): FlagSet
    requires IsFlag(c)
  {
    match c
    case '#' => r.(alternate := true)
    case '0' => r.(zeroPadded := true)
    case '-' => r.(leftAdjusted := true)
    case ' ' => r.(blank := true)
    case _ => r.(sign := true)
  }

  /** A second h or l sets the longer modifier. */
  function AddLength(r: LengthSet, c: char): LengthSet
    requires IsLength(c)
  {
    match c
    case 'h' => if r.short then r.(charLength := true) else r.(short := true)
    case 'l' => if r.long then r.(longLong := true) else r.(long := true)
    case 'j' => r.(intMax := true)
    case 'z' => r.(size := true)
    case _ => r.(ptrDiff := true)
  }

  function ConversionOf(c: char): Conversion {
    match c
    case 'd' => Signed
    case 'i' => Signed
    case 'o' => Octal
    case 'u' => Unsigned
    case 'X' => HexCapital
    case 'x' => Hex
    case 'c' => Character
    case 's' => CharPointer
    case 'p' => VoidPointer
    case '%' => Percent
    case _ => Unknown
  }

  // ------------------------------------------------------------ what a directive is

  predicate AllIn(s: string, p: char -> bool) {
    forall i | 0 <= i < |s| :: p(s[i])
  }

  function Flags(s: string, r: FlagSet): FlagSet
    requires AllIn(s, IsFlag)
    decreases |s|
  {
    if s == "" then r else Flags(s[1..], AddFlag(r, s[0]))
  }

  function Lengths(s: string, r: LengthSet): LengthSet
    requires AllIn(s, IsLength)
    decreases |s|
  {
    if s == "" then r else Lengths(s[1..], AddLength(r, s[0]))
  }

  /** The value that the digit loops accumulate, starting from n. */
  function Number(s: string, n: nat): nat
    requires AllIn(s, IsDigit)
    decreases |s|
  {
    if s == "" then n else Number(s[1..], 10 * n + (s[0] - '0') as int)
  }

  /** The four runs of characters that come before a conversion character, as the text spells them. */
  datatype Parts = Parts(flags: string, width: string, dot: bool, precision: string, lengths: string) {
    predicate Valid() {
      && AllIn(flags, IsFlag) && AllIn(width, IsDigit) && (width != "" ==> width[0] != '0')
      && AllIn(precision, IsDigit) && (!dot ==> precision == "") && AllIn(lengths, IsLength)
    }

    function Text(): string {
      flags + width + (if dot then "." else "") + precision + lengths
    }

    // What follows the flags, the width, the optional dot and the precision, when rest follows the parts.

    function Tail4(rest: string): string {
      lengths + rest
    }

    function Tail3(rest: string): string {
      precision + Tail4(rest)
    }

    function Tail2(rest: string): string {
      (if dot then "." else "") + Tail3(rest)
    }

    function Tail1(rest: string): string {
      width + Tail2(rest)
    }

    /** The meaning of the directive that these parts and the conversion character c make up.
        %p also sets the alternate-form flag. */
    function Meaning(c: char): Parsed
      requires Valid()
    {
      var f := Flags(flags, NO_FLAGS);
      var spec := Spec(if c == 'p' then f.(alternate := true) else f, width != "", dot,
                       Lengths(lengths, NO_LENGTHS), ConversionOf(c));
      Directive(spec, Number(width, 0), Number(precision, 0))
    }

    /** c cannot be taken for one more character of these parts. */
    predicate Ends(c: char) {
      && !IsLength(c)
      && (lengths == "" ==> !IsDigit(c) && (!dot ==> c != '.' && (width == "" ==> !IsFlag(c))))
    }
  }

  // ------------------------------------------------------------ splitting a text into parts

  /** Where the characters that satisfy p stop, from position i on. */
  function Stop(s: string, i: nat, p: char -> bool): (j: nat)
    requires i <= |s|
    ensures i <= j <= |s| && (forall k | i <= k < j :: p(s[k])) && (j < |s| ==> !p(s[j]))
    decreases |s| - i
  {
    if i == |s| || !p(s[i]) then i else Stop(s, i + 1, p)
  }

  /** From position i on, s goes on with t. */
  ghost predicate GoesOn(s: string, i: nat, t: string) {
    i <= |s| && s[i..] == t
  }

  ghost predicate Lies(s: string, i: nat, run: string) {
    i + |run| <= |s| && s[i..i + |run|] == run
  }

  /** A run stops where a character comes that does not belong to it. */
  lemma StopIs(s: string, i: nat, run: string, next: string, p: char -> bool)
    requires GoesOn(s, i, run + next) && AllIn(run, p) && (next != "" ==> !p(next[0]))
    ensures i + |run| <= |s| && Stop(s, i, p) == i + |run| && Lies(s, i, run) && GoesOn(s, i + |run|, next)
  {
    assert |s[i..]| == |run| + |next|;
    forall k | i <= k < i + |run| ensures p(s[k]) {
      assert s[k] == s[i..][k - i] == run[k - i];
    }
    assert next != "" ==> s[i + |run|] == s[i..][|run|] == next[0];
  }

  /** Where the runs of a directive end. */
  datatype Layout = Layout(e1: nat, e2: nat, e3: nat, e4: nat, e5: nat)

  function LayoutOf(s: string, pos: nat): (l: Layout)
    requires pos <= |s|
    ensures pos <= l.e1 <= l.e2 <= l.e3 <= l.e4 <= l.e5 <= |s|
    ensures l.e3 == l.e2 + if l.e2 < |s| && s[l.e2] == '.' then 1 else 0
  {
    var e1 := Stop(s, pos, IsFlag);
    var e2 := Stop(s, e1, IsDigit);
    var dot := e2 < |s| && s[e2] == '.';
    var e3 := if dot then e2 + 1 else e2;
    var e4 := if dot then Stop(s, e3, IsDigit) else e3;
    Layout(e1, e2, e3, e4, Stop(s, e4, IsLength))
  }

  /** The parts of the directive that starts at position pos of s. */
  function Split(s: string, pos: nat): (parts: Parts)
    requires pos <= |s|
  {
    var l := LayoutOf(s, pos);
    var dot := l.e2 < |s| && s[l.e2] == '.';
    Parts(s[pos..l.e1], s[l.e1..l.e2], dot, s[l.e3..l.e4], s[l.e4..l.e5])
  }

  lemma SplitValid(s: string, pos: nat)
    requires pos <= |s|
    ensures Split(s, pos).Valid()
  {
    var l := LayoutOf(s, pos);
    if l.e1 < l.e2 { assert !IsFlag(s[l.e1]); }
  }

  lemma SplitText(s: string, pos: nat)
    requires pos <= |s|
    ensures Split(s, pos).Text() == s[pos..LayoutOf(s, pos).e5]
  {
    hide Stop, LayoutOf;
    var l := LayoutOf(s, pos);
    Glue(s, pos, l, l.e2 < |s| && s[l.e2] == '.');
  }

  lemma Glue(s: string, pos: nat, l: Layout, dot: bool)
    requires pos <= l.e1 <= l.e2 <= l.e3 <= l.e4 <= l.e5 <= |s|
    requires l.e3 == l.e2 + (if dot then 1 else 0) && (dot ==> s[l.e2] == '.')
    ensures s[pos..l.e1] + s[l.e1..l.e2] + (if dot then "." else "") + s[l.e3..l.e4] + s[l.e4..l.e5] == s[pos..l.e5]
  {
    var mid := s[l.e2..l.e3];
    if dot { assert mid == [s[l.e2]]; } else { assert mid == ""; }
  }

  lemma LayoutFrom(s: string, pos: nat, l: Layout, dot: bool)
    requires pos <= l.e1 <= l.e2 <= l.e3 <= l.e4 <= l.e5 <= |s|
    requires dot == (l.e2 < |s| && s[l.e2] == '.') && l.e3 == l.e2 + if dot then 1 else 0
    requires Stop(s, pos, IsFlag) == l.e1 && Stop(s, l.e1, IsDigit) == l.e2 && Stop(s, l.e4, IsLength) == l.e5
    requires l.e4 == if dot then Stop(s, l.e3, IsDigit) else l.e3
    ensures LayoutOf(s, pos) == l
  {
    hide Stop;
  }

  lemma SplitFrom(s: string, pos: nat, l: Layout, parts: Parts)
    requires pos <= |s| && LayoutOf(s, pos) == l && parts.dot == (l.e2 < |s| && s[l.e2] == '.')
    requires l.e1 == pos + |parts.flags| && l.e2 == l.e1 + |parts.width|
    requires l.e4 == l.e3 + |parts.precision| && l.e5 == l.e4 + |parts.lengths|
    requires Lies(s, pos, parts.flags) && Lies(s, l.e1, parts.width)
    requires Lies(s, l.e3, parts.precision) && Lies(s, l.e4, parts.lengths)
    ensures Split(s, pos) == parts
  {
    hide LayoutOf;
  }

  // No part can be carried on by the character that follows it.

  lemma AfterFlags(parts: Parts, rest: string)
    requires parts.Valid() && (rest != "" ==> parts.Ends(rest[0]))
    ensures parts.Tail1(rest) != "" ==> !IsFlag(parts.Tail1(rest)[0])
  {}

  lemma AfterWidth(parts: Parts, rest: string)
    requires parts.Valid() && (rest != "" ==> parts.Ends(rest[0]))
    ensures parts.Tail1(rest) == parts.width + parts.Tail2(rest)
    ensures parts.Tail2(rest) != "" ==> !IsDigit(parts.Tail2(rest)[0])
    ensures parts.dot <==> parts.Tail2(rest) != "" && parts.Tail2(rest)[0] == '.'
  {}

  lemma AfterPrecision(parts: Parts, rest: string)
    requires parts.Valid() && (rest != "" ==> parts.Ends(rest[0]))
    ensures parts.Tail3(rest) == parts.precision + parts.Tail4(rest)
    ensures parts.dot && parts.Tail4(rest) != "" ==> !IsDigit(parts.Tail4(rest)[0])
    ensures !parts.dot ==> parts.precision == ""
  {}

  lemma AtDot(parts: Parts, s: string, i: nat, rest: string)
    requires GoesOn(s, i, parts.Tail2(rest))
    requires parts.dot <==> parts.Tail2(rest) != "" && parts.Tail2(rest)[0] == '.'
    ensures parts.dot == (i < |s| && s[i] == '.')
    ensures GoesOn(s, i + if parts.dot then 1 else 0, parts.Tail3(rest))
  {
    assert parts.Tail2(rest) != "" ==> s[i] == parts.Tail2(rest)[0];
    if parts.dot { assert s[i..][1..] == parts.Tail3(rest); }
  }

  lemma PrecisionStops(parts: Parts, s: string, i: nat, rest: string)
    requires parts.Valid() && (rest != "" ==> parts.Ends(rest[0])) && GoesOn(s, i, parts.Tail3(rest))
    ensures i + |parts.precision| <= |s|
    ensures Lies(s, i, parts.precision) && GoesOn(s, i + |parts.precision|, parts.lengths + rest)
    ensures i + |parts.precision| == if parts.dot then Stop(s, i, IsDigit) else i
  {
    hide Stop, AllIn, IsDigit, Parts.Tail3, Parts.Ends;
    AfterPrecision(parts, rest);
    if parts.dot { StopIs(s, i, parts.precision, parts.Tail4(rest), IsDigit); }
  }

  /** The flags and the width, up to a dot. */
  lemma FrontStops(parts: Parts, s: string, pos: nat, rest: string)
    requires parts.Valid() && (rest != "" ==> parts.Ends(rest[0])) && GoesOn(s, pos, parts.flags + parts.Tail1(rest))
    ensures var e1 := pos + |parts.flags|;
            var e2 := e1 + |parts.width|;
            && e2 <= |s| && Stop(s, pos, IsFlag) == e1 && Stop(s, e1, IsDigit) == e2
            && Lies(s, pos, parts.flags) && Lies(s, e1, parts.width)
            && parts.dot == (e2 < |s| && s[e2] == '.')
            && GoesOn(s, e2 + if parts.dot then 1 else 0, parts.Tail3(rest))
  {
    hide Stop, AllIn, IsFlag, IsDigit, IsLength, Lies, GoesOn;
    hide Parts.Ends, Parts.Tail1, Parts.Tail2, Parts.Tail3;
    AfterFlags(parts, rest);
    StopIs(s, pos, parts.flags, parts.Tail1(rest), IsFlag);
    AfterWidth(parts, rest);
    StopIs(s, pos + |parts.flags|, parts.width, parts.Tail2(rest), IsDigit);
    AtDot(parts, s, pos + |parts.flags| + |parts.width|, rest);
  }

  /** The precision and the length modifiers. */
  lemma BackStops(parts: Parts, s: string, i: nat, rest: string)
    requires parts.Valid() && (rest != "" ==> parts.Ends(rest[0])) && GoesOn(s, i, parts.Tail3(rest))
    ensures var e4 := i + |parts.precision|;
            var e5 := e4 + |parts.lengths|;
            && e5 <= |s| && e4 == (if parts.dot then Stop(s, i, IsDigit) else i) && Stop(s, e4, IsLength) == e5
            && Lies(s, i, parts.precision) && Lies(s, e4, parts.lengths)
  {
    hide Stop, AllIn, IsFlag, IsDigit, IsLength, Lies, GoesOn, Parts.Tail3;
    PrecisionStops(parts, s, i, rest);
    StopIs(s, i + |parts.precision|, parts.lengths, rest, IsLength);
  }

  /** Any text is split into parts in one way only. */
  lemma LayoutUnique(parts: Parts, s: string, pos: nat, rest: string)
    requires parts.Valid() && (rest != "" ==> parts.Ends(rest[0])) && GoesOn(s, pos, parts.flags + parts.Tail1(rest))
    ensures pos <= |s| && Split(s, pos) == parts
    ensures LayoutOf(s, pos).e5
         == pos + |parts.flags| + |parts.width| + (if parts.dot then 1 else 0) + |parts.precision| + |parts.lengths|
  {
    hide Stop, LayoutOf, AllIn, Parts.Valid, Parts.Ends, Parts.Tail1, Parts.Tail3, Lies, GoesOn, Split;
    var e1 := pos + |parts.flags|;
    var e2 := e1 + |parts.width|;
    var e3 := e2 + if parts.dot then 1 else 0;
    var e4 := e3 + |parts.precision|;
    var l := Layout(e1, e2, e3, e4, e4 + |parts.lengths|);
    FrontStops(parts, s, pos, rest);
    BackStops(parts, s, e3, rest);
    LayoutFrom(s, pos, l, parts.dot);
    SplitFrom(s, pos, l, parts);
  }

  lemma TextIs(parts: Parts, rest: string)
    ensures parts.Text() + rest == parts.flags + parts.Tail1(rest)
    ensures |parts.Text()|
            == |parts.flags| + |parts.width| + (if parts.dot then 1 else 0) + |parts.precision| + |parts.lengths|
  {}

  lemma SplitUnique(pre: string, parts: Parts, rest: string)
    requires parts.Valid() && (rest != "" ==> parts.Ends(rest[0]))
    ensures Split(pre + parts.Text() + rest, |pre|) == parts
    ensures LayoutOf(pre + parts.Text() + rest, |pre|).e5 == |pre| + |parts.Text()|
  {
    hide LayoutOf, Split, Parts.Valid, Parts.Ends, Parts.Text, Parts.Tail1;
    var s := pre + parts.Text() + rest;
    TextIs(parts, rest);
    assert s[|pre|..] == parts.Text() + rest;
    LayoutUnique(parts, s, |pre|, rest);
  }

  /** What parse_format makes of the directive at position pos of s, a format without its NUL, and the position at
      which it leaves the format pointer: past the conversion character, or past the NUL if the directive is cut off. */
  function Parse(s: string, pos: nat): (r: (Parsed, nat))
    requires pos <= |s|
    ensures pos < r.1 <= |s| + 1
    ensures r.0.EndString? <==> r.1 == |s| + 1
  {
    var n := LayoutOf(s, pos).e5;
    SplitValid(s, pos);
    (if n == |s| then EndString else Split(s, pos).Meaning(s[n]), n + 1)
  }

  /** parse_format undoes the spelling of a directive and reads exactly its characters. */
  lemma RoundTrip(pre: string, parts: Parts, c: char, rest: string)
    requires parts.Valid() && parts.Ends(c)
    ensures Parse(pre + parts.Text() + [c] + rest, |pre|) == (parts.Meaning(c), |pre| + |parts.Text()| + 1)
  {
    hide LayoutOf, Split;
    var s := pre + parts.Text() + [c] + rest;
    assert s == pre + parts.Text() + ([c] + rest);
    assert s[|pre| + |parts.Text()|] == c;
    SplitUnique(pre, parts, [c] + rest);
  }

  /** END_STRING comes back alone exactly when the format ends before the conversion character. */
  lemma CutOff(s: string, pos: nat)
    requires pos <= |s|
    ensures Parse(s, pos).0.EndString? <==> exists parts: Parts :: parts.Valid() && parts.Text() == s[pos..]
  {
    hide LayoutOf, Split;
    if Parse(s, pos).0.EndString? {
      SplitValid(s, pos);
      SplitText(s, pos);
      assert Split(s, pos).Valid() && Split(s, pos).Text() == s[pos..];
    }
    forall parts: Parts | parts.Valid() && parts.Text() == s[pos..] ensures Parse(s, pos).0.EndString? {
      assert s[..pos] + parts.Text() + "" == s;
      SplitUnique(s[..pos], parts, "");
    }
  }

  // ------------------------------------------------------------ a canonical printer

  datatype Option<T> = None | Some(value: T)

  datatype LengthModifier = NoLength | H | HH | L | LL | J | Z | T

  function Opt(on: bool, c: char): string { if on then [c] else "" }

  /** The letters of section 7.21.6.1 of ISO/IEC 9899:2011; an unknown conversion has one that means nothing else. */
  predicate Spelled(conversion: Conversion, letter: char) {
    match conversion
    case Signed => letter == 'd' || letter == 'i'
    case Octal => letter == 'o'
    case Unsigned => letter == 'u'
    case HexCapital => letter == 'X'
    case Hex => letter == 'x'
    case Character => letter == 'c'
    case CharPointer => letter == 's'
    case VoidPointer => letter == 'p'
    case Percent => letter == '%'
    case Unknown => letter !in "diouXxcsp%#0- +.123456789hljzt"
  }

  /** A directive as a caller thinks of it. */
  datatype Request = Request(alternate: bool, zeroPadded: bool, leftAdjusted: bool, blank: bool, sign: bool,
                             width: Option<nat>, precision: Option<nat>, length: LengthModifier,
                             conversion: Conversion, letter: char)
  {
    predicate Valid() {
      (width.Some? ==> width.value > 0) && Spelled(conversion, letter)
    }

    function FlagText(): string {
      Opt(alternate, '#') + (Opt(zeroPadded, '0') + (Opt(leftAdjusted, '-') + (Opt(blank, ' ') + Opt(sign, '+'))))
    }

    function LengthText(): string {
      match length
      case NoLength => ""
      case H => "h"
      case HH => "hh"
      case L => "l"
      case LL => "ll"
      case J => "j"
      case Z => "z"
      case T => "t"
    }

    function Print(): string {
      FlagText() + (if width.Some? then Numeral(width.value, DECIMAL) else "")
      + (if precision.Some? then "." + Numeral(precision.value, DECIMAL) else "")
      + LengthText() + [letter]
    }

    function Expected(): Parsed {
      Directive(
        Spec(FlagSet(alternate || conversion.VoidPointer?, zeroPadded, leftAdjusted, blank, sign),
             width.Some?, precision.Some?, LengthBits(length), conversion),
        if width.Some? then width.value else 0,
        if precision.Some? then precision.value else 0)
    }
  }

  function LengthBits(length: LengthModifier): LengthSet {
    LengthSet(length.H? || length.HH?, length.HH?, length.L? || length.LL?, length.LL?, length.J?, length.Z?, length.T?)
  }

  const DECIMAL := "0123456789"

  lemma {:induction false} NumberSnoc(s: string, n: nat, c: char)
    requires AllIn(s, IsDigit) && IsDigit(c)
    ensures AllIn(s + [c], IsDigit) && Number(s + [c], n) == 10 * Number(s, n) + (c - '0') as int
    decreases |s|
  {
    if s == "" {
      assert (s + [c])[1..] == "";
    } else {
      assert (s + [c])[1..] == s[1..] + [c];
      NumberSnoc(s[1..], 10 * n + (s[0] - '0') as int, c);
    }
  }

  lemma {:induction false} NumberOfSpelling(ds: seq<nat>)
    requires forall i | 0 <= i < |ds| :: ds[i] < 10
    ensures AllIn(Spell(ds, DECIMAL), IsDigit) && Number(Spell(ds, DECIMAL), 0) == Eval(ds, 10)
    decreases |ds|
  {
    DecimalDigits();
    if ds != [] {
      var front, d := ds[..|ds| - 1], ds[|ds| - 1];
      NumberOfSpelling(front);
      assert Spell(ds, DECIMAL) == Spell(front, DECIMAL) + [DECIMAL[d]];
      NumberSnoc(Spell(front, DECIMAL), 0, DECIMAL[d]);
    }
  }

  lemma DecimalDigits()
    ensures |DECIMAL| == 10 && forall d: nat | d < 10 :: IsDigit(DECIMAL[d]) && (DECIMAL[d] - '0') as int == d
  {}

  lemma NumberOfNumeral(n: nat)
    ensures var s := Numeral(n, DECIMAL);
            AllIn(s, IsDigit) && Number(s, 0) == n && s != "" && (n > 0 ==> s[0] != '0')
  {
    DigitsEval(n, 10);
    DigitsNumeral(n, 10);
    NumberOfSpelling(Digits(n, 10));
    DecimalDigits();
  }

  function PartsOf(r: Request): Parts {
    Parts(r.FlagText(), if r.width.Some? then Numeral(r.width.value, DECIMAL) else "", r.precision.Some?,
          if r.precision.Some? then Numeral(r.precision.value, DECIMAL) else "", r.LengthText())
  }

  lemma FlagsOfText(r: Request)
    ensures AllIn(r.FlagText(), IsFlag)
    ensures Flags(r.FlagText(), NO_FLAGS) == FlagSet(r.alternate, r.zeroPadded, r.leftAdjusted, r.blank, r.sign)
  {
    FlagEnd();
    hide Flags, AllIn, Opt;
    var s1 := Opt(r.blank, ' ') + Opt(r.sign, '+');
    var s2 := Opt(r.leftAdjusted, '-') + s1;
    var s3 := Opt(r.zeroPadded, '0') + s2;
    var r1 := FlagStep(r.alternate, '#', s3, NO_FLAGS);
    var r2 := FlagStep(r.zeroPadded, '0', s2, r1);
    var r3 := FlagStep(r.leftAdjusted, '-', s1, r2);
    var r4 := FlagStep(r.blank, ' ', Opt(r.sign, '+'), r3);
    var r5 := FlagStep(r.sign, '+', "", r4);
    assert Opt(r.sign, '+') + "" == Opt(r.sign, '+');
  }

  lemma FlagEnd()
    ensures AllIn("", IsFlag) && forall r: FlagSet :: Flags("", r) == r
  {}

  lemma FlagStep(on: bool, c: char, s: string, r: FlagSet) returns (r': FlagSet)
    requires IsFlag(c)
    ensures r' == if on then AddFlag(r, c) else r
    ensures AllIn(s, IsFlag) ==> AllIn(Opt(on, c) + s, IsFlag) && Flags(Opt(on, c) + s, r) == Flags(s, r')
  {
    var t := Opt(on, c) + s;
    if on { assert t[1..] == s; } else { assert t == s; }
    r' := if on then AddFlag(r, c) else r;
  }

  lemma LengthsOfText(r: Request)
    ensures AllIn(r.LengthText(), IsLength) && Lengths(r.LengthText(), NO_LENGTHS) == LengthBits(r.length)
  {
    match r.length
    case NoLength =>
    case HH => LengthPair('h', 'h');
    case LL => LengthPair('l', 'l');
    case H => LengthOne('h', NO_LENGTHS);
    case L => LengthOne('l', NO_LENGTHS);
    case J => LengthOne('j', NO_LENGTHS);
    case Z => LengthOne('z', NO_LENGTHS);
    case T => LengthOne('t', NO_LENGTHS);
  }

  lemma LengthOne(c: char, r: LengthSet)
    requires IsLength(c)
    ensures AllIn([c], IsLength) && Lengths([c], r) == AddLength(r, c)
  {
    assert [c][1..] == "";
  }

  lemma LengthPair(c: char, d: char)
    requires IsLength(c) && IsLength(d)
    ensures AllIn([c, d], IsLength) && Lengths([c, d], NO_LENGTHS) == AddLength(AddLength(NO_LENGTHS, c), d)
  {
    assert [c, d][1..] == [d];
    LengthOne(d, AddLength(NO_LENGTHS, c));
  }

  lemma LetterMeans(conversion: Conversion, letter: char)
    requires Spelled(conversion, letter)
    ensures ConversionOf(letter) == conversion && (letter == 'p' <==> conversion.VoidPointer?)
  {}

  lemma LetterEnds(conversion: Conversion, letter: char)
    requires Spelled(conversion, letter)
    ensures !IsLength(letter) && !IsDigit(letter) && letter != '.' && !IsFlag(letter)
  {}

  lemma PartsFit(r: Request)
    requires r.Valid()
    ensures PartsOf(r).Valid() && PartsOf(r).Ends(r.letter)
  {
    hide Spelled, ConversionOf, IsLength, IsDigit, IsFlag, Numeral, Flags, Lengths, Number, AllIn, Request.FlagText,
         Request.LengthText, Opt;
    LetterEnds(r.conversion, r.letter);
    if r.width.Some? { NumberOfNumeral(r.width.value); }
    if r.precision.Some? { NumberOfNumeral(r.precision.value); }
    NumberOfNothing();
    FlagsOfText(r);
    LengthsOfText(r);
  }

  lemma PartsMean(r: Request)
    requires r.Valid() && PartsOf(r).Valid()
    ensures PartsOf(r).Meaning(r.letter) == r.Expected()
  {
    hide Spelled, ConversionOf, IsLength, IsDigit, IsFlag, Numeral, Flags, Lengths, Number, AllIn, Request.FlagText,
         Request.LengthText, Opt, LengthBits;
    LetterMeans(r.conversion, r.letter);
    if r.width.Some? { NumberOfNumeral(r.width.value); }
    if r.precision.Some? { NumberOfNumeral(r.precision.value); }
    NumberOfNothing();
    FlagsOfText(r);
    LengthsOfText(r);
  }

  lemma NumberOfNothing()
    ensures AllIn("", IsDigit) && Number("", 0) == 0
  {}

  lemma PrintIs(r: Request)
    ensures r.Print() == PartsOf(r).Text() + [r.letter]
  {
    hide Numeral, Request.FlagText, Request.LengthText;
  }

  /** Every directive a caller can ask for is understood as asked, wherever it stands in the format. */
  lemma CanonicalRoundTrip(pre: string, r: Request, rest: string)
    requires r.Valid()
    ensures Parse(pre + r.Print() + rest, |pre|) == (r.Expected(), |pre| + |r.Print()|)
  {
    hide Parse, PartsOf, Parts.Text, Parts.Meaning, Parts.Valid, Parts.Ends, Request.Print, Request.Expected,
         Request.Valid;
    PartsFit(r);
    PartsMean(r);
    PrintIs(r);
    RoundTrip(pre, PartsOf(r), r.letter, rest);
    var t := PartsOf(r).Text();
    assert pre + (t + [r.letter]) + rest == pre + t + [r.letter] + rest;
  }

  // ------------------------------------------------------------ the parser as written

  /** The character at position i of the C string whose text is s; the NUL is at position |s|, and nothing may be
      read beyond it. */
  function CharAt(s: string, i: nat): char
    requires i <= |s|
  {
    if i < |s| then s[i] else '\0'
  }

  lemma Shift(s: string, i: nat, j: nat)
    requires i < j <= |s|
    ensures s[i..j][0] == s[i] && s[i..j][1..] == s[i + 1..j]
  {}

  lemma AllBefore(s: string, i: nat, p: char -> bool)
    requires i <= |s|
    ensures AllIn(s[i..Stop(s, i, p)], p)
  {}

  /** The flag loop. */
  method ScanFlags(s: string, pos: nat) returns (flags: FlagSet, next: nat)
    requires pos <= |s|
    ensures next == Stop(s, pos, IsFlag) && AllIn(s[pos..next], IsFlag) && flags == Flags(s[pos..next], NO_FLAGS)
  {
    AllBefore(s, pos, IsFlag);
    ghost var end := Stop(s, pos, IsFlag);
    flags, next := NO_FLAGS, pos;
    while IsFlag(CharAt(s, next))
      invariant pos <= next <= end && AllIn(s[next..end], IsFlag)
      invariant Flags(s[next..end], flags) == Flags(s[pos..end], NO_FLAGS)
      decreases end - next
    {
      Shift(s, next, end);
      flags := AddFlag(flags, CharAt(s, next));
      next := next + 1;
    }
  }

  /** The digit loops of the width and of the precision; any is whether there was a digit. */
  method ScanNumber(s: string, pos: nat) returns (any: bool, n: nat, next: nat)
    requires pos <= |s|
    ensures next == Stop(s, pos, IsDigit) && AllIn(s[pos..next], IsDigit) && n == Number(s[pos..next], 0)
    ensures any <==> pos < next
  {
    AllBefore(s, pos, IsDigit);
    ghost var end := Stop(s, pos, IsDigit);
    any, n, next := false, 0, pos;
    while IsDigit(CharAt(s, next))
      invariant pos <= next <= end && AllIn(s[next..end], IsDigit) && (any <==> pos < next)
      invariant Number(s[next..end], n) == Number(s[pos..end], 0)
      decreases end - next
    {
      Shift(s, next, end);
      any := true;
      n := 10 * n + (CharAt(s, next) - '0') as int;
      next := next + 1;
    }
  }

  /** The length-modifier loop. */
  method ScanLengths(s: string, pos: nat) returns (length: LengthSet, next: nat)
    requires pos <= |s|
    ensures next == Stop(s, pos, IsLength) && AllIn(s[pos..next], IsLength)
    ensures length == Lengths(s[pos..next], NO_LENGTHS)
  {
    AllBefore(s, pos, IsLength);
    ghost var end := Stop(s, pos, IsLength);
    length, next := NO_LENGTHS, pos;
    while IsLength(CharAt(s, next))
      invariant pos <= next <= end && AllIn(s[next..end], IsLength)
      invariant Lengths(s[next..end], length) == Lengths(s[pos..end], NO_LENGTHS)
      decreases end - next
    {
      Shift(s, next, end);
      length := AddLength(length, CharAt(s, next));
      next := next + 1;
    }
  }

  /** A C string ends at its first NUL. */
  ghost predicate IsCString(s: string) {
    forall i | 0 <= i < |s| :: s[i] != '\0'
  }

  lemma EndsEarly(s: string, i: nat)
    requires i == |s|
    ensures Stop(s, i, IsFlag) == i && Stop(s, i, IsDigit) == i && Stop(s, i, IsLength) == i
  {}

  /** Parse, from the ends that the loops find. */
  lemma ParseIs(s: string, pos: nat, l: Layout, dot: bool) returns (parts: Parts)
    requires pos <= l.e1 <= l.e2 <= l.e3 <= l.e4 <= l.e5 <= |s|
    requires dot == (l.e2 < |s| && s[l.e2] == '.') && l.e3 == l.e2 + if dot then 1 else 0
    requires Stop(s, pos, IsFlag) == l.e1 && Stop(s, l.e1, IsDigit) == l.e2 && Stop(s, l.e4, IsLength) == l.e5
    requires l.e4 == if dot then Stop(s, l.e3, IsDigit) else l.e3
    ensures parts == Parts(s[pos..l.e1], s[l.e1..l.e2], dot, s[l.e3..l.e4], s[l.e4..l.e5]) && parts.Valid()
    ensures Parse(s, pos) == (if l.e5 == |s| then EndString else parts.Meaning(s[l.e5]), l.e5 + 1)
  {
    hide Stop, LayoutOf, Parts.Valid, Parts.Meaning;
    LayoutFrom(s, pos, l, dot);
    SplitValid(s, pos);
    parts := Split(s, pos);
  }

  /** [.precision] */
  method ScanPrecision(s: string, pos: nat) returns (dot: bool, n: nat, next: nat)
    requires pos <= |s|
    ensures dot == (pos < |s| && s[pos] == '.')
    ensures if dot then next == Stop(s, pos + 1, IsDigit) else next == pos
    ensures var start := if dot then pos + 1 else pos;
            start <= next <= |s| && AllIn(s[start..next], IsDigit) && n == Number(s[start..next], 0)
  {
    hide Number, AllIn;
    NumberOfNothing();
    assert s[pos..pos] == "";
    dot, n, next := CharAt(s, pos) == '.', 0, pos;
    if dot {
      var any;
      any, n, next := ScanNumber(s, pos + 1);
    }
  }

  /** A format that ends early has nothing in the runs that are left. */
  lemma CutsOff(s: string, pos: nat, e1: nat, e2: nat)
    requires pos <= e1 <= e2 == |s| && Stop(s, pos, IsFlag) == e1 && Stop(s, e1, IsDigit) == e2
    ensures Parse(s, pos) == (EndString, |s| + 1)
  {
    hide Stop, LayoutOf, Parts.Valid, Parts.Meaning, Parse;
    EndsEarly(s, |s|);
    var _ := ParseIs(s, pos, Layout(e1, e2, e2, e2, e2), false);
  }

  /** parse_format from position pos. Every read goes through CharAt, whose precondition is that the position is
      not past the NUL. */
  method ParseFormat(s: string, pos: nat) returns (r: Parsed, next: nat)
    requires IsCString(s) && pos <= |s|
    ensures (r, next) == Parse(s, pos)
  {
    hide Flags, Lengths, Number, AllIn, Stop, Parse, LayoutOf, Split, IsFlag, IsDigit, IsLength, ConversionOf;
    EndsEarly(s, |s|);
    var flags, length, width, precision, hasPrecision := NO_FLAGS, NO_LENGTHS, 0, 0, false;
    flags, next := ScanFlags(s, pos);
    ghost var e1 := next;
    if CharAt(s, next) == '\0' {
      CutsOff(s, pos, e1, next);
      return EndString, next + 1;
    }
    var hasWidth;
    hasWidth, width, next := ScanNumber(s, next);
    ghost var e2 := next;
    if CharAt(s, next) == '\0' {
      CutsOff(s, pos, e1, next);
      return EndString, next + 1;
    }
    hasPrecision, precision, next := ScanPrecision(s, next);
    ghost var e3, e4 := if hasPrecision then e2 + 1 else e2, next;
    if CharAt(s, next) != '\0' {
      length, next := ScanLengths(s, next);
    }
    ghost var parts := ParseIs(s, pos, Layout(e1, e2, e3, e4, next), hasPrecision);
    if CharAt(s, next) == '\0' { return EndString, next + 1; }
    if CharAt(s, next) == 'p' { flags := flags.(alternate := true); }
    r := Directive(Spec(flags, hasWidth, hasPrecision, length, ConversionOf(CharAt(s, next))), width, precision);
    next := next + 1;
  }
}
