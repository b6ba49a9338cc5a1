/** The packed bitset of physical frames. */
module FrameBitmap {

  const BITS := 32

  function Mask(j: nat): bv32
    requires j < BITS
  {
    1 << j
  }

  function And(w: bv32, m: bv32): bv32 { w & m }

  function Or(w: bv32, m: bv32): bv32 { w | m }

  function Not(m: bv32): bv32 { !m }

  predicate Has(w: bv32, m: bv32) { And(w, m) != 0 }

  /** Bit f of a packed bitset. */
  predicate IsSet(words: seq<bv32>, f: nat)
    requires f < BITS * |words|
  {
    Has(words[f / BITS], Mask(f % BITS))
  }

  /** Two masks without, and a mask with, a common bit. */
  ghost predicate Disjoint(m: bv32, n: bv32) { And(m, n) == 0 }

  ghost predicate NonZero(m: bv32) { m != 0 }

  ghost function OneAt(i: bv32): bv32
    requires i < 32
  {
    1 << i
  }

  lemma ShiftsApart(i: bv32, j: bv32)
    requires i < 32 && j < 32
    ensures i != j ==> Disjoint(OneAt(i), OneAt(j))
    ensures NonZero(OneAt(j))
  {}

  lemma VectorValue(i: nat)
    requires i < BITS
    ensures (i as bv32) as int == i
  {}

  lemma MaskIsShift(i: nat)
    requires i < BITS
    ensures Mask(i) == OneAt(i as bv32) && (i as bv32) < 32
  {}

  lemma MasksApart(i: nat, j: nat)
    requires i < BITS && j < BITS
    ensures i != j ==> Disjoint(Mask(i), Mask(j))
    ensures NonZero(Mask(j))
  {
    hide Mask, OneAt, And, Disjoint, NonZero;
    VectorValue(i);
    VectorValue(j);
    MaskIsShift(i);
    MaskIsShift(j);
    ShiftsApart(i as bv32, j as bv32);
  }

  lemma OrSpreads(w: bv32, m: bv32, n: bv32)
    ensures And(Or(w, m), n) == Or(And(w, n), And(m, n))
  {}

  lemma OrNothing(w: bv32)
    ensures Or(w, 0) == w
  {}

  lemma OrElsewhere(w: bv32, m: bv32, n: bv32)
    requires Disjoint(m, n)
    ensures Has(Or(w, m), n) == Has(w, n)
  {
    hide And, Or;
    OrSpreads(w, m, n);
    OrNothing(And(w, n));
  }

  lemma Outside(m: bv32, n: bv32)
    requires Disjoint(m, n)
    ensures And(n, Not(m)) == n
  {}

  lemma AndSwaps(w: bv32, m: bv32, n: bv32)
    ensures And(And(w, m), n) == And(w, And(n, m))
  {}

  lemma AndNotElsewhere(w: bv32, m: bv32, n: bv32)
    requires Disjoint(m, n)
    ensures Has(And(w, Not(m)), n) == Has(w, n)
  {
    hide And, Not, Disjoint;
    Outside(m, n);
    AndSwaps(w, Not(m), n);
  }

  lemma OrHere(w: bv32, m: bv32)
    requires NonZero(m)
    ensures Has(Or(w, m), m)
  {
    assert (w | m) & m == m;
  }

  lemma AndNotHere(w: bv32, m: bv32)
    ensures !Has(And(w, Not(m)), m)
  {}

  lemma OnesHave(m: bv32)
    requires NonZero(m)
    ensures Has(0xFFFF_FFFF, m)
  {}

  /** Setting or clearing one bit of a word leaves the other 31 alone. */
  lemma OneBit(i: nat, j: nat, w: bv32)
    requires i < BITS && j < BITS
    ensures Has(Or(w, Mask(i)), Mask(j)) <==> i == j || Has(w, Mask(j))
    ensures Has(And(w, Not(Mask(i))), Mask(j)) <==> i != j && Has(w, Mask(j))
    ensures Has(0xFFFF_FFFF, Mask(j))
  {
    hide Mask, And, Or, Not, Has, Disjoint, NonZero;
    MasksApart(i, j);
    OnesHave(Mask(j));
    if i == j {
      OrHere(w, Mask(i));
      AndNotHere(w, Mask(i));
    } else {
      OrElsewhere(w, Mask(i), Mask(j));
      AndNotElsewhere(w, Mask(i), Mask(j));
    }
  }

  function WithSet(words: seq<bv32>, f: nat): (r: seq<bv32>)
    requires f < BITS * |words|
    ensures |r| == |words|
  {
    words[f / BITS := Or(words[f / BITS], Mask(f % BITS))]
  }

  function WithCleared(words: seq<bv32>, f: nat): (r: seq<bv32>)
    requires f < BITS * |words|
    ensures |r| == |words|
  {
    words[f / BITS := And(words[f / BITS], Not(Mask(f % BITS)))]
  }

  lemma SetAt(words: seq<bv32>, f: nat, g: nat)
    requires f < BITS * |words| && g < BITS * |words|
    ensures IsSet(WithSet(words, f), g) == (g == f || IsSet(words, g))
    ensures IsSet(WithCleared(words, f), g) == (g != f && IsSet(words, g))
  {
    hide Mask, And, Or, Not, Has;
    if g / BITS == f / BITS { OneBit(f % BITS, g % BITS, words[f / BITS]); }
  }

  lemma SetOne(words: seq<bv32>, f: nat)
    requires f < BITS * |words|
    ensures forall g: nat | g < BITS * |words| :: IsSet(WithSet(words, f), g) == (g == f || IsSet(words, g))
    ensures forall g: nat | g < BITS * |words| :: IsSet(WithCleared(words, f), g) == (g != f && IsSet(words, g))
  {
    hide IsSet, WithSet, WithCleared;
    forall g: nat | g < BITS * |words|
      ensures IsSet(WithSet(words, f), g) == (g == f || IsSet(words, g))
      ensures IsSet(WithCleared(words, f), g) == (g != f && IsSet(words, g))
    {
      SetAt(words, f, g);
    }
  }

  /** The frames in use. */
  ghost function Used(words: seq<bv32>): set<nat> {
    set f: nat | f < BITS * |words| && IsSet(words, f)
  }

  lemma UsedChanges(words: seq<bv32>, f: nat)
    requires f < BITS * |words|
    ensures Used(WithSet(words, f)) == Used(words) + {f}
    ensures Used(WithCleared(words, f)) == Used(words) - {f}
  {
    SetOne(words, f);
  }

  ghost predicate LeastFree(words: seq<bv32>, f: nat) {
    && f < BITS * |words|
    && !IsSet(words, f)
    && forall g: nat | g < f :: IsSet(words, g)
  }

  ghost predicate AllUsed(words: seq<bv32>) {
    forall g: nat | g < BITS * |words| :: IsSet(words, g)
  }

  lemma FreeIsUnused(words: seq<bv32>, f: nat)
    requires LeastFree(words, f)
    ensures f < BITS * |words| && f !in Used(words)
  {}

  /** How many of the first n frames are in use. */
  ghost function Count(words: seq<bv32>, n: nat): nat
    requires n <= BITS * |words|
  {
    if n == 0 then 0 else Count(words, n - 1) + if IsSet(words, n - 1) then 1 else 0
  }

  lemma {:induction false} CountBelow(words: seq<bv32>, n: nat)
    requires n <= BITS * |words|
    ensures Count(words, n) == |set f: nat | f < n && IsSet(words, f)|
  {
    hide IsSet;
    var below := set f: nat | f < n && IsSet(words, f);
    if n == 0 {
      assert below == {};
    } else {
      CountBelow(words, n - 1);
      var before := set f: nat | f < n - 1 && IsSet(words, f);
      assert below == if IsSet(words, n - 1) then before + {n - 1} else before;
    }
  }

  lemma CountIsUsed(words: seq<bv32>)
    ensures Count(words, BITS * |words|) == |Used(words)|
  {
    hide IsSet, Count;
    CountBelow(words, BITS * |words|);
    assert Used(words) == set f: nat | f < BITS * |words| && IsSet(words, f);
  }

  lemma {:induction false} CountAtMost(words: seq<bv32>, n: nat)
    requires n <= BITS * |words|
    ensures Count(words, n) <= n
  {
    if n > 0 { CountAtMost(words, n - 1); }
  }

  const FRAME_SIZE := 0x1000

  /** free_frame hands clear_frame a frame number where it expects an address. */
  function ClearedAsWritten(words: seq<bv32>, frame: nat): seq<bv32>
    requires frame / FRAME_SIZE < BITS * |words|
  {
    WithCleared(words, frame / FRAME_SIZE)
  }

  /** So the frame it should free stays in use, unless it is frame 0, which free_frame never passes. */
  lemma FreeingMeets(words: seq<bv32>, frame: nat)
    requires frame < BITS * |words| && IsSet(words, frame)
    ensures frame / FRAME_SIZE < BITS * |words|
    ensures Used(ClearedAsWritten(words, frame)) == Used(words) - {frame} <==> frame == 0
  {
    hide IsSet, WithCleared;
    var wrong := frame / FRAME_SIZE;
    UsedChanges(words, wrong);
    assert frame in Used(words);
  }

  /** frames is allotted one byte, instead of one word, for every 32 frames: the bit of a frame lies in the
      allotted bytes exactly for the first quarter of the frames. */
  lemma AllotmentMeets(frames: nat, f: nat)
    requires f < frames && frames % 128 == 0
    ensures 4 * (f / BITS) + 4 <= frames / BITS <==> f < frames / 4
  {}

  class Bitmap {
    const words: array<bv32>

    constructor (frames: nat)
      requires frames % BITS == 0
      ensures fresh(words) && BITS * words.Length == frames && Used(words[..]) == {}
    {
      words := new bv32[frames / BITS](_ => 0);
      new;
      assert forall k | 0 <= k < words.Length :: words[..][k] == 0;
      assert forall j: nat | j < BITS :: !Has(0, Mask(j));
    }

    method Set(addr: nat)
      requires addr / FRAME_SIZE < BITS * words.Length
      modifies words
      ensures words[..] == WithSet(old(words[..]), addr / FRAME_SIZE)
    {
      var frame := addr / FRAME_SIZE;
      hide Mask, Or;
      words[frame / BITS] := Or(words[frame / BITS], Mask(frame % BITS));
    }

    method Clear(addr: nat)
      requires addr / FRAME_SIZE < BITS * words.Length
      modifies words
      ensures words[..] == WithCleared(old(words[..]), addr / FRAME_SIZE)
    {
      var frame := addr / FRAME_SIZE;
      hide Mask, And, Not;
      words[frame / BITS] := And(words[frame / BITS], Not(Mask(frame % BITS)));
    }

    /** first_frame: the least free frame, or -1, which the C code forgets to return. */
    method FirstFree() returns (f: int)
      ensures f == -1 || (f >= 0 && LeastFree(words[..], f))
      ensures f == -1 ==> AllUsed(words[..])
    {
      hide Mask, Has;
      var i := 0;
      while i < words.Length
        invariant 0 <= i <= words.Length
        invariant forall g: nat | g < BITS * i :: IsSet(words[..], g)
      {
        if words[i] != 0xFFFF_FFFF {
          var j := 0;
          while j < BITS
            invariant 0 <= j <= BITS
            invariant forall g: nat | g < BITS * i + j :: IsSet(words[..], g)
          {
            if !Has(words[i], Mask(j)) {
              Position(i, j);
              assert !IsSet(words[..], BITS * i + j);
              return BITS * i + j;
            }
            Position(i, j);
            j := j + 1;
          }
        } else {
          AllOnes(words[..], i);
        }
        i := i + 1;
      }
      f := -1;
    }
  }

  lemma Position(i: nat, j: nat)
    requires j < BITS
    ensures (BITS * i + j) / BITS == i && (BITS * i + j) % BITS == j
  {}

  lemma AllOnes(words: seq<bv32>, i: nat)
    requires i < |words| && words[i] == 0xFFFF_FFFF
    ensures forall g: nat | BITS * i <= g < BITS * (i + 1) :: IsSet(words, g)
  {
    hide Mask, Has;
    forall g: nat | BITS * i <= g < BITS * (i + 1) ensures IsSet(words, g) {
      assert g == BITS * i + (g - BITS * i);
      Position(i, g - BITS * i);
      OneBit(0, g % BITS, words[i]);
    }
  }
}
