/** valconv: digits by repeated subtraction of a table's powers, against the positional numerals they spell. */
module Numerals {

  /** The value that a sequence of digits has, most significant digit first. */
  function Eval(ds: seq<nat>, base: nat): nat {
    if ds == [] then 0 else Eval(ds[..|ds| - 1], base) * base + ds[|ds| - 1]
  }

  /** The usual numeral of v: no digit reaches the base, and only zero starts with a zero. */
  ghost predicate IsNumeral(ds: seq<nat>, base: nat) {
    && ds != []
    && (forall i | 0 <= i < |ds| :: ds[i] < base)
    && (|ds| > 1 ==> ds[0] != 0)
  }

  lemma Smaller(v: nat, base: nat)
    requires 2 <= base <= v
    ensures 0 < v / base < v && v == v / base * base + v % base
  {
    var q, r := v / base, v % base;
    assert v == q * base + r;
    assert q >= 1;
    assert q * base >= 2 * q;
  }

  function Digits(v: nat, base: nat): (ds: seq<nat>)
    requires base >= 2
    ensures |ds| > 0
    decreases v
  {
    if v < base then [v] else
      Smaller(v, base);
      Digits(v / base, base) + [v % base]
  }

  lemma {:induction false} DigitsEval(v: nat, base: nat)
    requires base >= 2
    ensures Eval(Digits(v, base), base) == v
    decreases v
  {
    if v < base {
      EvalOne([v], base);
    } else {
      Smaller(v, base);
      DigitsEval(v / base, base);
      var ds := Digits(v / base, base);
      assert (ds + [v % base])[..|ds|] == ds;
    }
  }

  lemma {:induction false} DigitsNumeral(v: nat, base: nat)
    requires base >= 2
    ensures IsNumeral(Digits(v, base), base) && (v > 0 ==> Digits(v, base)[0] != 0)
    decreases v
  {
    if v >= base {
      Smaller(v, base);
      DigitsNumeral(v / base, base);
    }
  }

  lemma EvalOne(ds: seq<nat>, base: nat)
    requires |ds| == 1
    ensures Eval(ds, base) == ds[0]
  {
    assert Eval(ds[..0], base) == 0;
  }

  /** A numeral without superfluous zeros has a value of at least its leading digit's weight. */
  lemma {:induction false} LeadingDigit(ds: seq<nat>, base: nat)
    requires base >= 2 && ds != [] && ds[0] != 0
    ensures Eval(ds, base) > 0
    decreases |ds|
  {
    var front := ds[..|ds| - 1];
    if front != [] {
      LeadingDigit(front, base);
      assert Eval(front, base) * base > 0;
    } else {
      EvalOne(ds, base);
    }
  }

  /** Numerals are unique: whatever spells v in digits below the base, without leading zeros, is Digits(v). */
  lemma {:induction false} NumeralUnique(ds: seq<nat>, base: nat)
    requires base >= 2 && IsNumeral(ds, base)
    ensures ds == Digits(Eval(ds, base), base)
    decreases |ds|
  {
    var front, d := ds[..|ds| - 1], ds[|ds| - 1];
    assert ds == front + [d];
    if front == [] {
      EvalOne(ds, base);
    } else {
      assert front[0] == ds[0];
      NumeralUnique(front, base);
      LeadingDigit(front, base);
      DivMod(Eval(front, base), d, base);
    }
  }

  lemma DivMod(q: nat, r: nat, base: nat)
    requires base >= 2 && r < base
    ensures (q * base + r) / base == q && (q * base + r) % base == r
    ensures q > 0 ==> q * base + r >= base
  {
    var v := q * base + r;
    var w, m := v / base, v % base;
    assert v == w * base + m;
    assert w > q ==> w * base >= (q + 1) * base;
    assert w < q ==> (w + 1) * base <= q * base;
  }

  /** Digits as characters of an alphabet. */
  function Spell(ds: seq<nat>, alphabet: string): (s: string)
    requires forall i | 0 <= i < |ds| :: ds[i] < |alphabet|
    ensures |s| == |ds| && forall i | 0 <= i < |s| :: s[i] == alphabet[ds[i]]
  {
    seq(|ds|, i requires 0 <= i < |ds| => alphabet[ds[i]])
  }

  function Numeral(v: nat, alphabet: string): (s: string)
    requires |alphabet| >= 2
    ensures |s| == |Digits(v, |alphabet|)| > 0
  {
    DigitsNumeral(v, |alphabet|);
    Spell(Digits(v, |alphabet|), alphabet)
  }

  lemma NumeralIs(v: nat, ds: seq<nat>, alphabet: string)
    requires |alphabet| >= 2 && IsNumeral(ds, |alphabet|) && Eval(ds, |alphabet|) == v
    ensures Numeral(v, alphabet) == Spell(ds, alphabet)
  {
    NumeralUnique(ds, |alphabet|);
  }

  // ------------------------------------------------------------ the tables

  const SUB10: seq<nat> := [
    10000000000000000000, 1000000000000000000, 100000000000000000, 10000000000000000, 1000000000000000,
    100000000000000, 10000000000000, 1000000000000, 100000000000, 10000000000, 1000000000, 100000000,
    10000000, 1000000, 100000, 10000, 1000, 100, 10, 1, 0]

  /** 0100...0 in C octal: powers of 8 from 8^21. */
  const SUB8: seq<nat> := [
    0x8000000000000000, 0x1000000000000000, 0x200000000000000, 0x40000000000000, 0x8000000000000, 0x1000000000000,
    0x200000000000, 0x40000000000, 0x8000000000, 0x1000000000, 0x200000000, 0x40000000, 0x8000000, 0x1000000,
    0x200000, 0x40000, 0x8000, 0x1000, 0x200, 0x40, 8, 1, 0]

  const SUB16: seq<nat> := [
    0x1000000000000000, 0x100000000000000, 0x10000000000000, 0x1000000000000, 0x100000000000, 0x10000000000,
    0x1000000000, 0x100000000, 0x10000000, 0x1000000, 0x100000, 0x10000, 0x1000, 0x100, 0x10, 1, 0]

  /** The entries are the powers of the base, largest first, then 1, then the terminating 0. */
  ghost predicate IsTable(sub: seq<nat>, base: nat) {
    && |sub| >= 2 && base >= 2
    && sub[|sub| - 1] == 0 && sub[|sub| - 2] == 1
    && forall i {:trigger sub[i]} | 0 <= i < |sub| - 2 :: sub[i] == base * sub[i + 1] && sub[i] > 0
  }

  const TWO64 := 0x1_0000_0000_0000_0000

  lemma Table10()
    ensures IsTable(SUB10, 10) && |SUB10| == 21 && 10 * SUB10[0] >= TWO64
  {}

  lemma Table8()
    ensures IsTable(SUB8, 8) && |SUB8| == 23 && 8 * SUB8[0] >= TWO64
  {}

  lemma Table16()
    ensures IsTable(SUB16, 16) && |SUB16| == 17 && 16 * SUB16[0] >= TWO64
  {}

  lemma Tables()
    ensures IsTable(SUB10, 10) && |SUB10| == 21 && 10 * SUB10[0] >= TWO64
    ensures IsTable(SUB8, 8) && |SUB8| == 23 && 8 * SUB8[0] >= TWO64
    ensures IsTable(SUB16, 16) && |SUB16| == 17 && 16 * SUB16[0] >= TWO64
  {
    hide IsTable;
    Table10();
    Table8();
    Table16();
  }

  /** The weight of one unit just left of table position i. */
  ghost function Above(sub: seq<nat>, base: nat, i: nat): nat
    requires i < |sub|
  {
    if i == 0 then base * sub[0] else sub[i - 1]
  }

  lemma AppendDigit(ds: seq<nat>, d: nat, base: nat, unit: nat, v: nat, rest: nat)
    requires v == d * unit + rest
    ensures Eval(ds + [d], base) * unit + rest == Eval(ds, base) * (base * unit) + v
  {
    assert (ds + [d])[..|ds|] == ds;
    var e := Eval(ds, base);
    assert (e * base + d) * unit == e * (base * unit) + d * unit;
  }

  lemma DigitBelow(d: nat, unit: nat, v: nat, base: nat)
    requires d * unit <= v < base * unit
    ensures d < base
  {
    assert d >= base ==> d * unit >= base * unit;
  }

  /** The inner loop of valconv: how often the unit can be subtracted. */
  method TakeUnits(val: nat, unit: nat) returns (digit: nat, v: nat)
    requires unit > 0
    ensures val == digit * unit + v && v < unit
  {
    digit, v := 0, val;
    while v >= unit
      invariant val == digit * unit + v
    {
      digit := digit + 1;
      v := v - unit;
    }
  }

  /** The digits so far and what is left of the value at position i of the table make up the value val. */
  ghost predicate Digested(ds: seq<nat>, v: nat, i: nat, val: nat, sub: seq<nat>, base: nat) {
    && |ds| <= i < |sub| && v < Above(sub, base, i)
    && Eval(ds, base) * Above(sub, base, i) + v == val
    && (forall k | 0 <= k < |ds| :: ds[k] < base)
    && (if ds == [] then i < |sub| - 1 && sub[i] <= v else ds[0] != 0)
  }

  lemma NothingDigested(v: nat, i: nat, sub: seq<nat>, base: nat)
    requires i < |sub| - 1 && sub[i] <= v < Above(sub, base, i)
    ensures Digested([], v, i, v, sub, base)
  {}

  lemma DigestOne(ds: seq<nat>, digit: nat, v: nat, rest: nat, i: nat, val: nat, sub: seq<nat>, base: nat)
    requires IsTable(sub, base) && Digested(ds, v, i, val, sub, base) && sub[i] != 0
    requires v == digit * sub[i] + rest && rest < sub[i]
    ensures digit < base && Digested(ds + [digit], rest, i + 1, val, sub, base)
  {
    DigitBelow(digit, sub[i], v, base);
    AppendDigit(ds, digit, base, sub[i], v, rest);
  }

  lemma AllDigested(ds: seq<nat>, v: nat, i: nat, val: nat, sub: seq<nat>, base: nat)
    requires IsTable(sub, base) && Digested(ds, v, i, val, sub, base) && sub[i] == 0
    ensures IsNumeral(ds, base) && Eval(ds, base) == val
  {}

  method Valconv(val: nat, buf: array<char>, sub: seq<nat>, alphabet: string) returns (n: nat)
    requires IsTable(sub, |alphabet|) && val < |alphabet| * sub[0] && |sub| - 1 <= buf.Length && alphabet[0] == '0'
    modifies buf
    ensures n <= |sub| - 1 && buf[..n] == Numeral(val, alphabet)
    ensures forall k | n <= k < buf.Length :: buf[k] == old(buf[k])
  {
    hide Numeral, Spell, Digits, Eval, Digested;
    ghost var base := |alphabet|;
    n := 0;
    if val == 0 {
      buf[0] := '0';
      EvalOne([0], base);
      NumeralIs(0, [0], alphabet);
      assert buf[..1] == Spell([0], alphabet);
      return 1;
    }
    var v: nat, i: nat := val, 0;
    while v < sub[i]
      invariant i <= |sub| - 2 && v < Above(sub, base, i)
      decreases |sub| - i
    {
      i := i + 1;
    }
    ghost var ds: seq<nat> := [];
    NothingDigested(v, i, sub, base);
    while sub[i] != 0
      invariant n == |ds| <= i <= |sub| - 1 && Digested(ds, v, i, val, sub, base)
      invariant forall k | 0 <= k < n :: ds[k] < base && buf[k] == alphabet[ds[k]]
      invariant forall k | n <= k < buf.Length :: buf[k] == old(buf[k])
      decreases |sub| - i
    {
      var digit;
      ghost var v0 := v;
      digit, v := TakeUnits(v, sub[i]);
      DigestOne(ds, digit, v0, v, i, val, sub, base);
      buf[n] := alphabet[digit];
      ds := ds + [digit];
      n := n + 1;
      i := i + 1;
    }
    AllDigested(ds, v, i, val, sub, base);
    NumeralIs(val, ds, alphabet);
    assert buf[..n] == Spell(ds, alphabet);
  }
}
