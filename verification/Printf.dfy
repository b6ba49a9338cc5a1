/** do_printf and vsnprintf, against the text that an unbounded printer would produce. */
module Printf {
  import opened Numerals
  import opened FormatParser
  import opened Sinks
  import opened Conversions
  import opened IsoReference

  /** An argument as the caller passes it; a string argument is a C string's text, or a null pointer. */
  datatype Arg = Integer(v: int) | Str(s: Option<string>)

  ghost predicate ValidArgs(args: seq<Arg>) {
    forall i | 0 <= i < |args| && args[i].Str? && args[i].s.Some? :: IsCString(args[i].s.value)
  }

  const TWO32 := 0x1_0000_0000

  function AsUnsigned(v: int, wide: bool): nat {
    if wide then v % TWO64 else v % TWO32
  }

  function AsSigned(v: int, wide: bool): int {
    var u := AsUnsigned(v, wide);
    if wide then (if u >= TWO64 / 2 then u - TWO64 else u) else (if u >= TWO32 / 2 then u - TWO32 else u)
  }

  /** Which va_arg the length modifiers choose: only ll and j read 64 bits on i386, and h or hh overrule them. */
  predicate Wide(length: LengthSet) {
    !length.charLength && !length.short && (length.longLong || length.intMax)
  }

  /** The next argument as an integer; reading past the arguments, or the wrong kind, is given as zero. */
  function NextInt(args: seq<Arg>): int {
    if args != [] && args[0].Integer? then args[0].v else 0
  }

  function NextString(args: seq<Arg>): string {
    if args != [] && args[0].Str? && args[0].s.Some? then args[0].s.value else "(null)"
  }

  function Rest(args: seq<Arg>): seq<Arg> { if args == [] then [] else args[1..] }

  function Abs(v: int): nat { if v < 0 then -v else v }

  /** What one directive prints. */
  function Converted(spec: Spec, width: nat, precision: nat, args: seq<Arg>): string {
    if spec.conv.Percent? then "%"
    else if spec.conv.Unknown? then "FORMAT ERROR"
    else if spec.conv.CharPointer? then StringText(NextString(args), spec, width, precision)
    else if spec.conv.VoidPointer? then IntText(AsUnsigned(NextInt(args), false), spec, NoSign, width, precision)
    else if spec.conv.Signed? || spec.conv.Character? then
      var v := AsSigned(NextInt(args), Wide(spec.length));
      IntText(Abs(v), spec, if v < 0 then Minus else Plus, width, precision)
    else
      IntText(AsUnsigned(NextInt(args), Wide(spec.length)), spec, NoSign, width, precision)
  }

  function Remaining(spec: Spec, args: seq<Arg>): seq<Arg> {
    if spec.conv.Percent? || spec.conv.Unknown? then args else Rest(args)
  }

  /** The text that printf has to print for the format s from position pos on. */
  function Output(s: string, pos: nat, args: seq<Arg>): string
    requires pos <= |s|
    decreases |s| - pos
  {
    if pos == |s| then ""
    else if s[pos] != '%' then [s[pos]] + Output(s, pos + 1, args)
    else
      var (r, next) := Parse(s, pos + 1);
      match r
      case EndString => ""
      case Directive(spec, width, precision) =>
        Converted(spec, width, precision, args) + Output(s, next, Remaining(spec, args))
  }

  /** One directive: the branches of do_printf after parse_format. */
  method Convert(spec: Spec, width: nat, precision: nat, args: seq<Arg>, sink: Sink) returns (n: nat)
    requires sink.Valid() && ValidArgs(args) && !spec.conv.Percent?
    modifies sink, sink.buf
    ensures sink.Fed(old(sink.taken), old(sink.len), Converted(spec, width, precision, args), n)
    ensures sink.off >= old(sink.off) && forall i | sink.off <= i < sink.buf.Length :: sink.buf[i] == old(sink.buf[i])
  {
    hide IntText, StringText, Cut;
    if spec.conv.Signed? || spec.conv.Character? {
      var intval := AsSigned(NextInt(args), Wide(spec.length));
      if intval < 0 {
        n := DoConversionInt(-intval, spec, Minus, width, precision, sink);
      } else {
        n := DoConversionInt(intval, spec, Plus, width, precision, sink);
      }
    } else if spec.conv.Unsigned? || spec.conv.Octal? || spec.conv.Hex? || spec.conv.HexCapital? {
      n := DoConversionInt(AsUnsigned(NextInt(args), Wide(spec.length)), spec, NoSign, width, precision, sink);
    } else if spec.conv.VoidPointer? {
      n := DoConversionInt(AsUnsigned(NextInt(args), false), spec, NoSign, width, precision, sink);
    } else if spec.conv.CharPointer? {
      NullIsText();
      n := DoConversionString(NextString(args), spec, width, precision, sink);
    } else {
      PlainError();
      n := DoConversionString("FORMAT ERROR", Spec(NO_FLAGS, false, false, NO_LENGTHS, CharPointer), 0, 0, sink);
    }
  }

  lemma PlainError()
    ensures StringText("FORMAT ERROR", Spec(NO_FLAGS, false, false, NO_LENGTHS, CharPointer), 0, 0) == "FORMAT ERROR"
    ensures IsCString("FORMAT ERROR")
  {
    assert Times(' ', 0) == "";
  }

  lemma NullIsText()
    ensures IsCString("(null)")
  {}

  /** do_printf. A refused plain character ends it; a refused conversion only returns a short count. */
  method DoPrintf(s: string, args: seq<Arg>, sink: Sink) returns (n: nat)
    requires IsCString(s) && ValidArgs(args) && sink.Valid()
    modifies sink, sink.buf
    ensures sink.Fed(old(sink.taken), old(sink.len), Output(s, 0, args), n)
    ensures sink.off >= old(sink.off) && forall i | sink.off <= i < sink.buf.Length :: sink.buf[i] == old(sink.buf[i])
  {
    hide Cut, Parse, Converted, Sink.Fed, Progress, Output;
    ghost var start, room, sofar := sink.taken, sink.len, "";
    Begin(s, args, sink);
    n := 0;
    var pos, ap := 0, args;
    while CharAt(s, pos) != '\0'
      invariant pos <= |s| && ValidArgs(ap)
      invariant sink.Fed(start, room, sofar, n)
      invariant Progress(s, args, sofar, pos, ap)
      invariant sink.off >= old(sink.off)
                && forall i | sink.off <= i < sink.buf.Length :: sink.buf[i] == old(sink.buf[i])
      decreases |s| - pos
    {
      var c := CharAt(s, pos);
      ghost var pos0, ap0, piece := pos, ap, [c];
      OutputIs(s, pos0, ap0);
      pos := pos + 1;
      var literal := true;
      if c == '%' {
        var r, next := ParseFormat(s, pos);
        if r.EndString? {
          Done(s, args, sofar, pos0, ap);
          return;
        }
        pos := next;
        literal := r.spec.conv.Percent?;
        piece := Converted(r.spec, r.width, r.precision, ap);
        if literal {
          PercentPrintsItself(r.spec, r.width, r.precision, ap);
        } else {
          n := ConvertNext(r.spec, r.width, r.precision, ap, sink, start, room, sofar, n);
          ap := Remaining(r.spec, ap);
        }
      }
      Advance(s, args, sofar, pos0, ap0, piece, pos, ap);
      if literal {
        var ok;
        n, ok := sink.PutNext(start, room, sofar, n, c);
        if !ok {
          sink.FedStops(start, room, sofar + [c], Output(s, pos, ap), n);
          return;
        }
      }
      sofar := sofar + piece;
    }
    OutputIs(s, pos, ap);
    Done(s, args, sofar, pos, ap);
  }

  /** sofar is what the characters before pos print. */
  ghost predicate Progress(s: string, args: seq<Arg>, sofar: string, pos: nat, ap: seq<Arg>)
    requires pos <= |s|
  {
    sofar + Output(s, pos, ap) == Output(s, 0, args)
  }

  lemma Advance(s: string, args: seq<Arg>, sofar: string, pos: nat, ap: seq<Arg>, piece: string, pos': nat,
                ap': seq<Arg>)
    requires pos <= |s| && pos' <= |s| && Progress(s, args, sofar, pos, ap)
    requires Output(s, pos, ap) == piece + Output(s, pos', ap')
    ensures Progress(s, args, sofar + piece, pos', ap')
    ensures (sofar + piece) + Output(s, pos', ap') == Output(s, 0, args)
  {
    assert sofar + (piece + Output(s, pos', ap')) == (sofar + piece) + Output(s, pos', ap');
  }

  lemma Done(s: string, args: seq<Arg>, sofar: string, pos: nat, ap: seq<Arg>)
    requires pos <= |s| && Progress(s, args, sofar, pos, ap) && Output(s, pos, ap) == ""
    ensures sofar == Output(s, 0, args)
  {
    assert sofar + "" == sofar;
  }

  lemma OutputIs(s: string, pos: nat, args: seq<Arg>)
    requires pos <= |s|
    ensures pos == |s| ==> Output(s, pos, args) == ""
    ensures pos < |s| && s[pos] != '%' ==> Output(s, pos, args) == [s[pos]] + Output(s, pos + 1, args)
    ensures pos < |s| && s[pos] == '%' ==>
              var (r, next) := Parse(s, pos + 1);
              Output(s, pos, args) ==
              if r.EndString? then "" else
                Converted(r.spec, r.width, r.precision, args) + Output(s, next, Remaining(r.spec, args))
  {}

  lemma Begin(s: string, args: seq<Arg>, sink: Sink)
    requires sink.Valid()
    ensures sink.Fed(sink.taken, sink.len, "", 0) && Progress(s, args, "", 0, args)
  {
    assert sink.taken + "" == sink.taken;
    assert "" + Output(s, 0, args) == Output(s, 0, args);
  }

  lemma PercentPrintsItself(spec: Spec, width: nat, precision: nat, args: seq<Arg>)
    requires spec.conv.Percent?
    ensures Converted(spec, width, precision, args) == "%"
  {}

  /** A conversion after text sofar. */
  method ConvertNext(spec: Spec, width: nat, precision: nat, args: seq<Arg>, sink: Sink,
                     ghost start: string, ghost room: nat, ghost sofar: string, count: nat) returns (n: nat)
    requires sink.Fed(start, room, sofar, count) && ValidArgs(args) && !spec.conv.Percent?
    modifies sink, sink.buf
    ensures sink.Fed(start, room, sofar + Converted(spec, width, precision, args), n)
    ensures sink.off >= old(sink.off) && forall i | sink.off <= i < sink.buf.Length :: sink.buf[i] == old(sink.buf[i])
  {
    hide Converted, Cut;
    ghost var taken, len := sink.taken, sink.len;
    var k := Convert(spec, width, precision, args, sink);
    sink.FedBoth(start, room, sofar, Converted(spec, width, precision, args), count, taken, len, k);
    n := count + k;
  }

  /** vsnprintf: the first size - 1 characters of the output, a NUL, and nothing else. */
  method Vsnprintf(str: array<char>, size: nat, s: string, args: seq<Arg>) returns (n: nat)
    requires IsCString(s) && ValidArgs(args) && size <= str.Length
    modifies str
    ensures n == Min(|Output(s, 0, args)|, size)
    ensures n == |Output(s, 0, args)| <==> |Output(s, 0, args)| <= size
    ensures size == 0 ==> str[..] == old(str[..])
    ensures size > 0 ==>
              var k := Min(|Output(s, 0, args)|, size - 1);
              str[..k] == Output(s, 0, args)[..k] && str[k] == '\0' && str[k + 1..] == old(str[k + 1..])
  {
    hide Output;
    var sink := new Sink.Buffer(str, size);
    n := DoPrintf(s, args, sink);
    var ok := sink.Put('\0');
  }

  /** printf puts the whole output on the screen and returns its length. */
  method PrintfToScreen(s: string, args: seq<Arg>) returns (n: nat, screen: string)
    requires IsCString(s) && ValidArgs(args)
    ensures screen == Output(s, 0, args) && n == |screen|
  {
    hide Output;
    var sink := new Sink.Screen();
    n := DoPrintf(s, args, sink);
    screen := sink.screen;
  }

  /** A signed argument in range is read as itself. */
  lemma SignedInRange(v: int, wide: bool)
    requires if wide then -(TWO64 / 2) <= v < TWO64 / 2 else -(TWO32 / 2) <= v < TWO32 / 2
    ensures AsSigned(v, wide) == v
  {
    if wide {
      if v < 0 { assert v % TWO64 == v + TWO64; } else { assert v % TWO64 == v; }
    } else {
      if v < 0 { assert v % TWO32 == v + TWO32; } else { assert v % TWO32 == v; }
    }
  }

  /** What %d prints can be read back: padding, a minus sign exactly for negative numbers, and digits that spell
      the magnitude. */
  lemma SignedPrintsBack(spec: Spec, width: nat, precision: nat, v: int, rest: seq<Arg>)
    returns (l: nat, r: nat, mark: string, body: string)
    requires spec.conv.Signed? && !ZeroWithZeroPrecision(Abs(v), spec, precision)
    requires if Wide(spec.length) then -(TWO64 / 2) <= v < TWO64 / 2 else -(TWO32 / 2) <= v < TWO32 / 2
    ensures Converted(spec, width, precision, [Integer(v)] + rest) == Times(' ', l) + mark + body + Times(' ', r)
    ensures (mark == "-" <==> v < 0) && |mark| <= 1 && Spells(body, DECIMAL, Abs(v))
  {
    hide IntText, Numeral, Spells, Prefix, AsSigned, Wide;
    SignedInRange(v, Wide(spec.length));
    var sign := if v < 0 then Minus else Plus;
    var digits := Numeral(Abs(v), DECIMAL);
    var zeros := if spec.hasPrecision && precision > |digits| then precision - |digits| else 0;
    MarkOf(Abs(v), spec, sign, zeros);
    mark := Prefix(Abs(v), spec, sign, zeros);
    l, r, body := IntTextSpells(Abs(v), spec, sign, width, precision);
    assert NextInt([Integer(v)] + rest) == v;
  }

  lemma MarkOf(val: nat, spec: Spec, sign: Sign, zeros: nat)
    requires spec.conv.Signed? && !sign.NoSign?
    ensures |Prefix(val, spec, sign, zeros)| <= 1 && (Prefix(val, spec, sign, zeros) == "-" <==> sign.Minus?)
  {}

  /** %c as section 7.21.6.1 of ISO/IEC 9899:2011 has it: the argument converted to unsigned char, in its field. */
  function IsoCharacter(v: int, spec: Spec, width: nat): string {
    var gap := if spec.hasWidth && width > 1 then width - 1 else 0;
    if spec.flags.leftAdjusted then [(v % 0x100) as char] + Times(' ', gap) else Times(' ', gap) + [(v % 0x100) as char]
  }

  /** do_printf passes %c the magnitude of its argument, and no field is printed: right exactly for a field of at
      most one character and an argument that is not negative or a multiple of 128. */
  lemma CharacterMeetsIso(v: int, spec: Spec, sign: Sign, width: nat, precision: nat)
    requires spec.conv.Character?
    ensures IntText(Abs(v), spec, sign, width, precision) == IsoCharacter(v, spec, width)
            <==> !(spec.hasWidth && width > 1) && (v >= 0 || v % 0x80 == 0)
  {
    var iso, c, d := IsoCharacter(v, spec, width), (v % 0x100) as char, CharOf(Abs(v));
    SameLowByte(v);
    assert c == d <==> v % 0x100 == Abs(v) % 0x100;
    if !(spec.hasWidth && width > 1) {
      assert Times(' ', 0) == "";
      assert iso == [c];
      assert iso == [d] <==> iso[0] == [d][0];
    } else {
      assert |iso| > 1;
    }
  }

  lemma SameLowByte(v: int)
    ensures v % 0x100 == Abs(v) % 0x100 <==> v >= 0 || v % 0x80 == 0
  {
    var q, r := v / 0x100, v % 0x100;
    assert v == 0x100 * q + r;
    LowByte(-v, if r == 0 then -q else -q - 1, if r == 0 then 0 else 0x100 - r);
    LowHalf(v, q, r);
  }

  lemma LowByte(v: int, q: int, r: int)
    requires v == 0x100 * q + r && 0 <= r < 0x100
    ensures v % 0x100 == r
  {}

  lemma LowHalf(v: int, q: int, r: int)
    requires v == 0x100 * q + r && 0 <= r < 0x100
    ensures v % 0x80 == 0 <==> r == 0 || r == 0x80
  {
    if r < 0x80 { assert v == 0x80 * (2 * q) + r; } else { assert v == 0x80 * (2 * q + 1) + (r - 0x80); }
  }
}
