/** do_conversion_int and do_conversion_string: the text of one converted argument. */
module Conversions {
  import opened Numerals
  import opened FormatParser
  import opened Sinks

  /** FLAG_MINUS and FLAG_PLUS, which do_printf adds for a signed argument. */
  datatype Sign = NoSign | Minus | Plus

  const LOWER := "0123456789abcdef"
  const UPPER := "0123456789ABCDEF"
  const OCTAL := "01234567"

  function Alphabet(conv: Conversion): (a: string)
    ensures |a| >= 2
  {
    match conv
    case Octal => OCTAL
    case HexCapital => UPPER
    case Hex => LOWER
    case VoidPointer => LOWER
    case _ => DECIMAL
  }

  predicate IsDecimal(conv: Conversion) { conv.Signed? || conv.Unsigned? }

  predicate IsHex(conv: Conversion) { conv.Hex? || conv.HexCapital? || conv.VoidPointer? }

  /** The conversions that reach do_conversion_int with digits to print. */
  predicate IsNumber(conv: Conversion) { IsDecimal(conv) || IsHex(conv) || conv.Octal? }

  function Max(a: int, b: int): int { if a > b then a else b }

  /** Signs and base prefixes as the C code chooses them; zeros is the number of precision zeros. */
  function Prefix(val: nat, spec: Spec, sign: Sign, zeros: nat): string {
    if IsDecimal(spec.conv) then
      if sign.Plus? then (if spec.flags.sign then "+" else if spec.flags.blank then " " else "")
      else if sign.Minus? then "-" else ""
    else if spec.flags.alternate && val != 0 then
      if spec.conv.Octal? && zeros == 0 then "0"
      else if spec.conv.HexCapital? then "0X"
      else if IsHex(spec.conv) then "0x" else ""
    else ""
  }

  datatype Padding = Padding(leftsp: nat, leftzero: nat, rightsp: nat)

  /** How the C code distributes the padding around len digits and a prefix. */
  function Pad(spec: Spec, width: nat, zeros: nat, body: nat): Padding {
    var gap := if spec.hasWidth && width > body then width - body else 0;
    var leftsp := if spec.flags.leftAdjusted then 0 else gap;
    var rightsp := if spec.flags.leftAdjusted then gap else 0;
    if spec.flags.zeroPadded && !spec.hasPrecision then Padding(0, zeros + leftsp, rightsp)
    else Padding(leftsp, zeros, rightsp)
  }

  /** The conversion to char that the sink makes. */
  function CharOf(val: nat): char { (val % 0x100) as char }

  /** The text that do_conversion_int offers to the sink. %c is its low byte and nothing else. */
  function IntText(val: nat, spec: Spec, sign: Sign, width: nat, precision: nat): string {
    if spec.conv.Character? then [CharOf(val)]
    else if spec.hasPrecision && precision == 0 && val == 0 then ""
    else
      var digits := Numeral(val, Alphabet(spec.conv));
      var zeros := if spec.hasPrecision && precision > |digits| then precision - |digits| else 0;
      var prefix := Prefix(val, spec, sign, zeros);
      var pad := Pad(spec, width, zeros, |prefix| + zeros + |digits|);
      Times(' ', pad.leftsp) + prefix + Times('0', pad.leftzero) + digits + Times(' ', pad.rightsp)
  }

  function Min(a: int, b: int): int { if a < b then a else b }

  /** The text of a %s argument: at most precision characters, in a field of width. */
  function StringText(str: string, spec: Spec, width: nat, precision: nat): string {
    var s := if spec.hasPrecision && precision < |str| then str[..precision] else str;
    var gap := if spec.hasWidth && width > |s| then width - |s| else 0;
    if spec.flags.leftAdjusted then s + Times(' ', gap) else Times(' ', gap) + s
  }

  // ------------------------------------------------------------ the conversions as written

  method ConvertDigits(val: nat, conv: Conversion, buf: array<char>) returns (len: nat)
    requires val < TWO64 && IsNumber(conv) && buf.Length == 32
    modifies buf
    ensures len <= (if IsDecimal(conv) then 20 else if conv.Octal? then 22 else 16)
    ensures buf[..len] == Numeral(val, Alphabet(conv))
  {
    Tables();
    if IsDecimal(conv) {
      len := Valconv(val, buf, SUB10, DECIMAL);
    } else if conv.Octal? {
      len := Valconv(val, buf, SUB8, OCTAL);
    } else if conv.HexCapital? {
      len := Valconv(val, buf, SUB16, UPPER);
    } else {
      len := Valconv(val, buf, SUB16, LOWER);
    }
  }

  /** The five output loops; a refusal by the sink ends them, and the count so far is returned. */
  method Emit(sink: Sink, a: string, b: string, c: string, d: string, e: string) returns (n: nat)
    requires sink.Valid()
    modifies sink, sink.buf
    ensures sink.Fed(old(sink.taken), old(sink.len), a + b + c + d + e, n)
    ensures sink.off >= old(sink.off) && forall i | sink.off <= i < sink.buf.Length :: sink.buf[i] == old(sink.buf[i])
  {
    hide Cut;
    ghost var start, room := sink.taken, sink.len;
    var ok;
    n, ok := sink.Feed(a);
    n, ok := sink.FeedNext(start, room, a, n, ok, b);
    n, ok := sink.FeedNext(start, room, a + b, n, ok, c);
    n, ok := sink.FeedNext(start, room, a + b + c, n, ok, d);
    n, ok := sink.FeedNext(start, room, a + b + c + d, n, ok, e);
  }

  /** do_conversion_int. */
  method DoConversionInt(val: nat, spec: Spec, sign: Sign, width: nat, precision: nat, sink: Sink) returns (n: nat)
    requires val < TWO64 && (IsNumber(spec.conv) || spec.conv.Character?) && sink.Valid()
    modifies sink, sink.buf
    ensures sink.Fed(old(sink.taken), old(sink.len), IntText(val, spec, sign, width, precision), n)
    ensures sink.off >= old(sink.off) && forall i | sink.off <= i < sink.buf.Length :: sink.buf[i] == old(sink.buf[i])
  {
    hide Numeral, Alphabet, Prefix, Times, Cut;
    if spec.conv.Character? {
      var ok;
      n, ok := sink.Feed([CharOf(val)]);
      return;
    }
    if spec.hasPrecision && precision == 0 && val == 0 {
      CutNothing(sink.bounded, sink.len);
      assert sink.taken + "" == sink.taken;
      return 0;
    }
    var buf := new char[32];
    var len := ConvertDigits(val, spec.conv, buf);
    var leftzero := if spec.hasPrecision && precision > len then precision - len else 0;
    var leftbuf := Prefix(val, spec, sign, leftzero);
    var leftsp, rightsp := 0, 0;
    if spec.hasWidth && width > |leftbuf| + leftzero + len {
      if spec.flags.leftAdjusted {
        rightsp := width - (|leftbuf| + leftzero + len);
      } else {
        leftsp := width - (|leftbuf| + leftzero + len);
      }
    }
    if spec.flags.zeroPadded && !spec.hasPrecision {
      leftzero, leftsp := leftzero + leftsp, 0;
    }
    n := Emit(sink, Times(' ', leftsp), leftbuf, Times('0', leftzero), buf[..len], Times(' ', rightsp));
  }

  lemma CutNothing(bounded: bool, len: nat)
    ensures Cut("", bounded, len) == ""
  {}

  /** do_conversion_string. The argument is the text of a C string, and stops at its first NUL. */
  method DoConversionString(str: string, spec: Spec, width: nat, precision: nat, sink: Sink) returns (n: nat)
    requires sink.Valid() && IsCString(str)
    modifies sink, sink.buf
    ensures sink.Fed(old(sink.taken), old(sink.len), StringText(str, spec, width, precision), n)
    ensures sink.off >= old(sink.off) && forall i | sink.off <= i < sink.buf.Length :: sink.buf[i] == old(sink.buf[i])
  {
    var len := 0;
    while !(spec.hasPrecision && len >= precision) && CharAt(str, len) != '\0'
      invariant len <= |str| && (spec.hasPrecision ==> len <= precision)
      decreases |str| - len
    {
      len := len + 1;
    }
    var leftsp, rightsp := 0, 0;
    if spec.hasWidth && width > len {
      if spec.flags.leftAdjusted {
        rightsp := width - len;
      } else {
        leftsp := width - len;
      }
    }
    n := Emit(sink, Times(' ', leftsp), str[..len], Times(' ', rightsp), "", "");
    StringParts(str, spec, width, precision, len, leftsp, rightsp);
  }

  lemma StringParts(str: string, spec: Spec, width: nat, precision: nat, len: nat, leftsp: nat, rightsp: nat)
    requires len <= |str| && len == if spec.hasPrecision && precision < |str| then precision else |str|
    requires var gap := if spec.hasWidth && width > len then width - len else 0;
             if spec.flags.leftAdjusted then leftsp == 0 && rightsp == gap else leftsp == gap && rightsp == 0
    ensures Times(' ', leftsp) + str[..len] + Times(' ', rightsp) + "" + "" == StringText(str, spec, width, precision)
  {
    var s := if spec.hasPrecision && precision < |str| then str[..precision] else str;
    assert s == str[..len];
    assert Times(' ', 0) == "";
  }
}
