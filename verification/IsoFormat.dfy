/** Whole formats: what printf prints for literal text and directives that a caller has put together, and which argument
    each directive reads. */
module IsoFormat {
  import opened Numerals
  import opened FormatParser
  import opened Sinks
  import opened Conversions
  import opened IsoReference
  import opened Printf
  import opened IsoPrintf

  datatype Piece = Literal(text: string) | Field(request: Request)

  predicate ValidPiece(p: Piece) {
    match p
    case Literal(text) => '%' !in text
    case Field(r) => r.Valid()
  }

  function PieceText(p: Piece): string {
    match p
    case Literal(text) => text
    case Field(r) => "%" + r.Print()
  }

  /** The format from piece i on, with something at its end. */
  function FormatFrom(pieces: seq<Piece>, i: nat, tail: string): string
    requires i <= |pieces|
    decreases |pieces| - i
  {
    if i == |pieces| then tail else PieceText(pieces[i]) + FormatFrom(pieces, i + 1, tail)
  }

  /** A directive that is cut off by the end of the format, or nothing. */
  ghost predicate CutOffTail(tail: string) {
    tail == "" || exists parts: Parts :: parts.Valid() && tail == "%" + parts.Text()
  }

  predicate Reads(p: Piece) {
    match p
    case Literal(_) => false
    case Field(r) => r.conversion != Percent && r.conversion != Unknown
  }

  /** How many arguments are read before piece i. */
  function Rank(pieces: seq<Piece>, i: nat): (k: nat)
    requires i <= |pieces|
    decreases i
  {
    if i == 0 then 0 else Rank(pieces, i - 1) + if Reads(pieces[i - 1]) then 1 else 0
  }

  /** The kind of argument that a directive asks for. */
  predicate Suits(r: Request, a: Arg) {
    if r.conversion.CharPointer? then a.Str? else a.Integer?
  }

  /** Every directive that reads an argument has one, and of its kind. */
  ghost predicate Supplied(pieces: seq<Piece>, args: seq<Arg>) {
    forall i | 0 <= i < |pieces| && Reads(pieces[i]) ::
      Rank(pieces, i) < |args| && Suits(pieces[i].request, args[Rank(pieces, i)])
  }

  // ---------------------------------------------------------------- what one directive prints

  /** The values that the C code reads: ll and j ask for 64 bits, all others for 32 on i386. */
  function ReadSize(length: LengthModifier): (size: nat)
    ensures size > 0
  {
    match length
    case LL => 0x1_0000_0000_0000_0000
    case J => 0x1_0000_0000_0000_0000
    case _ => 0x1_0000_0000
  }

  /** Those of the standard. */
  function IsoSize(length: LengthModifier): (size: nat)
    ensures size > 0
  {
    match length
    case HH => 0x100
    case H => 0x1_0000
    case LL => 0x1_0000_0000_0000_0000
    case J => 0x1_0000_0000_0000_0000
    case _ => 0x1_0000_0000
  }

  function ValueRead(r: Request, v: int): int {
    if r.conversion.VoidPointer? then ToBits(v, 0x1_0000_0000, false)
    else ToBits(v, ReadSize(r.length), r.conversion.Signed? || r.conversion.Character?)
  }

  /** A number in the field that the directive asks for, as the standard has it. */
  function NumberField(r: Request, n: int): string {
    var e := r.Expected();
    IsoInt(Magnitude(n), e.spec, if !r.conversion.Signed? then NoSign else if n < 0 then Minus else Plus, e.width,
           e.precision)
  }

  function Magnitude(n: int): nat { if n >= 0 then n else -n }

  /** What a directive prints of its own argument. */
  function ArgText(r: Request, a: Arg): string
    requires Suits(r, a)
  {
    var e := r.Expected();
    match r.conversion
    case CharPointer => StringText(if a.s.Some? then a.s.value else "(null)", e.spec, e.width, e.precision)
    case Character => [(Magnitude(ValueRead(r, a.v)) % 0x100) as char]
    case _ =>
      var n := ValueRead(r, a.v);
      if n == 0 && r.precision == Some(0) then "" else NumberField(r, n)
  }

  function PieceOutput(pieces: seq<Piece>, i: nat, args: seq<Arg>): string
    requires i < |pieces| && Supplied(pieces, args)
  {
    match pieces[i]
    case Literal(text) => text
    case Field(r) =>
      if r.conversion.Percent? then "%"
      else if r.conversion.Unknown? then "FORMAT ERROR"
      else ArgText(r, args[Rank(pieces, i)])
  }

  function OutputFrom(pieces: seq<Piece>, i: nat, args: seq<Arg>): string
    requires i <= |pieces| && Supplied(pieces, args)
    decreases |pieces| - i
  {
    if i == |pieces| then "" else PieceOutput(pieces, i, args) + OutputFrom(pieces, i + 1, args)
  }

  // ---------------------------------------------------------------- the directives one by one

  /** Reading a value in so many bits leaves it as it is but for a multiple of the size, and in range. */
  lemma ToBitsIs(v: int, size: nat, signed: bool) returns (q: int)
    requires size > 0 && size % 2 == 0
    ensures ToBits(v, size, signed) == v + q * size
    ensures if signed then -(size / 2) <= ToBits(v, size, signed) < size / 2 else 0 <= ToBits(v, size, signed) < size
  {
    var u := v % size;
    assert v == v / size * size + u;
    q := if signed && u >= size / 2 then -(v / size) - 1 else -(v / size);
  }

  /** Only ll and j read 64 bits. */
  lemma WideModifier(length: LengthModifier)
    ensures Wide(LengthBits(length)) <==> length == LL || length == J
  {}

  /** In any spelling of the length modifiers: 64 bits are read for two l or a j, unless there is an h. */
  lemma WideText(s: string)
    requires AllIn(s, IsLength)
    ensures Wide(Lengths(s, NO_LENGTHS)) <==> 'h' !in s && ('j' in s || multiset(s)['l'] >= 2)
  {
    LengthsSeen(s, NO_LENGTHS);
  }

  lemma FirstOf(s: string)
    requires s != ""
    ensures multiset(s)['l'] == multiset(s[1..])['l'] + if s[0] == 'l' then 1 else 0
    ensures 'h' in s <==> s[0] == 'h' || 'h' in s[1..]
    ensures 'j' in s <==> s[0] == 'j' || 'j' in s[1..]
  {
    assert s == [s[0]] + s[1..];
  }

  lemma LengthCharacter(c: char)
    ensures IsLength(c) <==> c == 'h' || c == 'l' || c == 'j' || c == 'z' || c == 't'
  {}

  lemma OneModifier(r: LengthSet, c: char)
    requires IsLength(c)
    ensures c == 'h' || c == 'l' || c == 'j' || c == 'z' || c == 't'
    ensures var t := AddLength(r, c);
      && (t.short <==> r.short || c == 'h') && (t.charLength ==> r.charLength || (c == 'h' && r.short))
      && (t.intMax <==> r.intMax || c == 'j') && (t.long <==> r.long || c == 'l')
      && (t.longLong <==> r.longLong || (c == 'l' && r.long))
  {
    hide IsLength;
    LengthCharacter(c);
  }

  lemma {:induction false} LengthsSeen(s: string, r: LengthSet)
    requires AllIn(s, IsLength) && (r.charLength ==> r.short) && (r.longLong ==> r.long)
    ensures var t := Lengths(s, r);
      && (t.short <==> r.short || 'h' in s) && (t.charLength ==> t.short)
      && (t.intMax <==> r.intMax || 'j' in s)
      && (t.longLong <==> r.longLong || multiset(s)['l'] + (if r.long then 1 else 0) >= 2)
    decreases |s|
  {
    if s != "" {
      hide AddLength;
      FirstOf(s);
      OneModifier(r, s[0]);
      LengthsSeen(s[1..], AddLength(r, s[0]));
    }
  }

  lemma ReadAlike(v: int, length: LengthModifier)
    ensures AsSigned(v, Wide(LengthBits(length))) == ToBits(v, ReadSize(length), true)
    ensures AsUnsigned(v, Wide(LengthBits(length))) == ToBits(v, ReadSize(length), false)
    ensures AsUnsigned(v, false) == ToBits(v, 0x1_0000_0000, false)
  {
    WideModifier(length);
  }

  lemma ConvertedIs(r: Request, a: Arg, rest: seq<Arg>)
    requires r.Valid() && r.conversion != Percent && r.conversion != Unknown && Suits(r, a)
    ensures var e := r.Expected();
      Converted(e.spec, e.width, e.precision, [a] + rest) == ArgText(r, a)
  {
    hide IntText, IsoInt, StringText, Wide, AsSigned, AsUnsigned, ToBits, LengthBits, Spelled;
    assert ([a] + rest)[0] == a;
    if a.Integer? {
      ReadAlike(a.v, r.length);
      if !r.conversion.Character? { NumberIs(r, ValueRead(r, a.v)); } else { CharacterIs(r, ValueRead(r, a.v)); }
    }
  }

  lemma NumberIs(r: Request, n: int)
    requires IsNumber(r.conversion) && (n < 0 ==> r.conversion.Signed?)
    ensures var e := r.Expected();
      var sign := if !r.conversion.Signed? then NoSign else if n < 0 then Minus else Plus;
      IntText(Abs(n), e.spec, sign, e.width, e.precision)
      == if n == 0 && r.precision == Some(0) then "" else NumberField(r, n)
  {
    var e := r.Expected();
    var sign := if !r.conversion.Signed? then NoSign else if n < 0 then Minus else Plus;
    if !(n == 0 && r.precision == Some(0)) { SameText(Abs(n), e.spec, sign, e.width, e.precision); }
  }

  lemma CharacterIs(r: Request, n: int)
    requires r.conversion.Character?
    ensures var e := r.Expected();
      forall sign: Sign :: IntText(Abs(n), e.spec, sign, e.width, e.precision) == [(Magnitude(n) % 0x100) as char]
  {}

  // ---------------------------------------------------------------- whole formats

  lemma OneCharacter(pre: string, text: string, rest: string)
    requires text != ""
    ensures var s := pre + text + rest;
      s == (pre + [text[0]]) + text[1..] + rest && |pre| < |s| && s[|pre|] == text[0] && text == [text[0]] + text[1..]
  {}

  lemma {:induction false} LiteralOutput(pre: string, text: string, rest: string, args: seq<Arg>)
    requires '%' !in text
    ensures Output(pre + text + rest, |pre|, args) == text + Output(pre + text + rest, |pre| + |text|, args)
    decreases |text|
  {
    hide Output, Parse;
    var s := pre + text + rest;
    if text != "" {
      OneCharacter(pre, text, rest);
      OutputIs(s, |pre|, args);
      LiteralOutput(pre + [text[0]], text[1..], rest, args);
      var after := Output(s, |pre| + |text|, args);
      assert [text[0]] + (text[1..] + after) == ([text[0]] + text[1..]) + after;
    } else {
      assert "" + Output(s, |pre|, args) == Output(s, |pre|, args);
    }
  }

  lemma PercentFirst(pre: string, text: string, rest: string)
    ensures var s := pre + ("%" + text) + rest;
      s == (pre + "%") + text + rest && |pre| < |s| && s[|pre|] == '%'
  {}

  lemma ParsedAt(s: string, pos: nat, pre: string, r: Request, rest: string)
    requires r.Valid() && s == pre + r.Print() + rest && pos == |pre|
    ensures Parse(s, pos) == (r.Expected(), pos + |r.Print()|)
  {
    hide *;
    CanonicalRoundTrip(pre, r, rest);
  }

  lemma FieldAt(s: string, pos: nat, pre: string, r: Request, rest: string, args: seq<Arg>)
    requires r.Valid() && s == pre + r.Print() + rest && |pre| == pos + 1 && pos < |s| && s[pos] == '%'
    ensures Output(s, pos, args)
      == Converted(r.Expected().spec, r.Expected().width, r.Expected().precision, args)
         + Output(s, pos + 1 + |r.Print()|, Remaining(r.Expected().spec, args))
  {
    hide *;
    ParsedAt(s, pos + 1, pre, r, rest);
    OutputIs(s, pos, args);
  }

  lemma FieldOutput(s: string, pre: string, r: Request, rest: string, args: seq<Arg>)
    requires r.Valid() && s == pre + ("%" + r.Print()) + rest
    ensures Output(s, |pre|, args)
      == Converted(r.Expected().spec, r.Expected().width, r.Expected().precision, args)
         + Output(s, |pre| + 1 + |r.Print()|, Remaining(r.Expected().spec, args))
  {
    hide *;
    var text := r.Print();
    PercentFirst(pre, text, rest);
    FieldAt(s, |pre|, pre + "%", r, rest, args);
  }

  lemma TailOutput(pre: string, tail: string, args: seq<Arg>)
    requires CutOffTail(tail)
    ensures Output(pre + tail, |pre|, args) == ""
  {
    hide Parse, Converted, Parts.Valid, Parts.Text;
    var s := pre + tail;
    if tail == "" {
      assert s == pre;
    } else {
      var parts: Parts :| parts.Valid() && tail == "%" + parts.Text();
      assert s[|pre|] == '%' && s[|pre| + 1..] == parts.Text();
      CutOff(s, |pre| + 1);
      OutputIs(s, |pre|, args);
    }
  }

  lemma ArgsOn(args: seq<Arg>, k: nat)
    requires k < |args|
    ensures args[k..] == [args[k]] + args[k + 1..] && Rest(args[k..]) == args[k + 1..]
  {}

  /** Piece i of a format prints what it should of its own argument, and leaves the arguments of the pieces after it. */
  lemma OnePiece(pre: string, pieces: seq<Piece>, i: nat, rest: string, args: seq<Arg>)
    requires i < |pieces| && ValidPiece(pieces[i]) && Supplied(pieces, args)
    requires Rank(pieces, i) <= |args| && Rank(pieces, i + 1) <= |args|
    ensures var s := pre + PieceText(pieces[i]) + rest;
      Output(s, |pre|, args[Rank(pieces, i)..])
      == PieceOutput(pieces, i, args) + Output(s, |pre| + |PieceText(pieces[i])|, args[Rank(pieces, i + 1)..])
  {
    hide Output, Converted, ArgText, Request.Print, Request.Valid, Request.Expected, Parse;
    var a := args[Rank(pieces, i)..];
    match pieces[i]
    case Literal(text) => LiteralOutput(pre, text, rest, a);
    case Field(r) =>
      FieldOutput(pre + PieceText(pieces[i]) + rest, pre, r, rest, a);
      FieldPrints(pieces, i, args);
  }

  lemma FieldPrints(pieces: seq<Piece>, i: nat, args: seq<Arg>)
    requires i < |pieces| && ValidPiece(pieces[i]) && pieces[i].Field? && Supplied(pieces, args)
    requires Rank(pieces, i) <= |args| && Rank(pieces, i + 1) <= |args|
    ensures var e, a := pieces[i].request.Expected(), args[Rank(pieces, i)..];
      && Converted(e.spec, e.width, e.precision, a) == PieceOutput(pieces, i, args)
      && Remaining(e.spec, a) == args[Rank(pieces, i + 1)..]
  {
    hide ArgText, Request.Valid, LengthBits;
    var r := pieces[i].request;
    if Reads(pieces[i]) {
      var k := Rank(pieces, i);
      ArgsOn(args, k);
      ConvertedIs(r, args[k], args[k + 1..]);
    }
  }

  lemma {:induction false} RanksSupplied(pieces: seq<Piece>, args: seq<Arg>, i: nat)
    requires Supplied(pieces, args) && i <= |pieces|
    ensures Rank(pieces, i) <= |args|
    decreases i
  {
    if i > 0 { RanksSupplied(pieces, args, i - 1); }
  }

  lemma {:induction false} FormatFromMeets(pre: string, pieces: seq<Piece>, i: nat, tail: string, args: seq<Arg>)
    requires i <= |pieces| && (forall j | 0 <= j < |pieces| :: ValidPiece(pieces[j]))
    requires Supplied(pieces, args) && CutOffTail(tail) && Rank(pieces, i) <= |args|
    ensures Output(pre + FormatFrom(pieces, i, tail), |pre|, args[Rank(pieces, i)..]) == OutputFrom(pieces, i, args)
    decreases |pieces| - i
  {
    hide Output, PieceText, PieceOutput, ValidPiece, Supplied, CutOffTail, Reads;
    if i == |pieces| {
      TailOutput(pre, tail, args[Rank(pieces, i)..]);
    } else {
      RanksSupplied(pieces, args, i + 1);
      var text, rest := PieceText(pieces[i]), FormatFrom(pieces, i + 1, tail);
      OnePiece(pre, pieces, i, rest, args);
      FormatFromMeets(pre + text, pieces, i + 1, tail, args);
      assert pre + text + rest == pre + (text + rest);
    }
  }

  /** printf prints, for a format put together from literal text and directives, the literals and what each directive
      prints of its own argument: the one whose number is the number of directives before it that read one. Of a
      directive that the end of the format cuts off nothing is printed. */
  lemma FormatMeets(pieces: seq<Piece>, tail: string, args: seq<Arg>)
    requires (forall j | 0 <= j < |pieces| :: ValidPiece(pieces[j])) && Supplied(pieces, args) && CutOffTail(tail)
    ensures Output(FormatFrom(pieces, 0, tail), 0, args) == OutputFrom(pieces, 0, args)
  {
    hide Output, OutputFrom, ValidPiece, Supplied, CutOffTail;
    FormatFromMeets("", pieces, 0, tail, args);
    assert "" + FormatFrom(pieces, 0, tail) == FormatFrom(pieces, 0, tail) && args[0..] == args;
  }

  /** A directive for an integer prints what the standard says of its argument exactly when the argument fits its length
      modifier, and value and precision are not both zero or nothing is to be shown. */
  lemma ArgMeetsIso(r: Request, v: int)
    requires r.conversion in {Signed, Octal, Unsigned, Hex, HexCapital}
    ensures var n := ToBits(v, IsoSize(r.length), r.conversion.Signed?);
      ArgText(r, Integer(v)) == NumberField(r, n)
      <==> n == ValueRead(r, v)
           && (!(n == 0 && r.precision == Some(0)) || NothingToShow(r.Expected().spec, r.Expected().width))
  {
    hide IsoInt, IntText, ToBits, NothingToShow, Alphabet, LengthBits;
    var e, signed := r.Expected(), r.conversion.Signed?;
    var n, a := ToBits(v, IsoSize(r.length), signed), ValueRead(r, v);
    ToBitsPositive(v, IsoSize(r.length));
    ToBitsPositive(v, ReadSize(r.length));
    NumberIs(r, a);
    IntTextReads(Abs(a), e.spec, SignOf(a, signed), e.width, e.precision);
    IsoIntReads(Abs(n), e.spec, SignOf(n, signed), e.width, e.precision);
    if a == n { IntMeetsIso(Abs(a), e.spec, SignOf(a, signed), e.width, e.precision); }
  }

  lemma ToBitsPositive(v: int, size: nat)
    requires size > 0
    ensures ToBits(v, size, false) >= 0
  {}
}
