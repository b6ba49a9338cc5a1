/** Moving the boot stack to its own pages, and moving every pointer into it along. Memory is by words: addresses are
    multiples of 4, as the i386 keeps its stack. */
module StackMove {
  import opened FrameBitmap
  import opened Paging
  import opened AddressSpaces

  /** The arguments of move_stack and the registers it reads: the old stack is [oldSp, top), the new one ends at sp. */
  datatype Stacks = Stacks(sp: int, size: nat, oldSp: int, top: int)

  function Offset(s: Stacks): int { s.sp - s.top }

  function Depth(s: Stacks): int { s.top - s.oldSp }

  function NewSp(s: Stacks): int { s.oldSp + Offset(s) }

  /** Both stacks lie in memory of n words, and the copy does not run over what it has yet to copy. */
  predicate StacksFit(s: Stacks, n: nat) {
    && s.sp % 4 == s.oldSp % 4 == s.top % 4 == 0
    && 0 <= s.oldSp <= s.top <= 4 * n
    && s.size <= s.sp < 4 * n
    && Depth(s) <= s.sp
    && (s.top <= NewSp(s) || s.sp <= s.oldSp)
  }

  /** A pointer strictly inside the old stack moves along with it. */
  function Rebase(s: Stacks, v: int): int {
    if s.oldSp < v < s.top then v + Offset(s) else v
  }

  /** The words the last loop visits. */
  predicate Visited(s: Stacks, a: int) {
    s.sp - s.size < a <= s.sp
  }

  /** The word of index k, at address 4 * k, when the words of the old stack are copied to the new one. */
  function CopiedWord(s: Stacks, w: seq<int>, k: nat): int
    requires StacksFit(s, |w|) && k < |w|
  {
    var to, from := NewSp(s) / 4, s.oldSp / 4;
    if to <= k < to + Depth(s) / 4 then w[k - to + from] else w[k]
  }

  /** That word after the move. */
  function MovedWord(s: Stacks, w: seq<int>, k: nat): int
    requires StacksFit(s, |w|) && k < |w|
  {
    if Visited(s, 4 * k) then Rebase(s, CopiedWord(s, w, k)) else CopiedWord(s, w, k)
  }

  method MoveStack(words: array<int>, s: Stacks, oldBp: int) returns (newSp: int, newBp: int)
    requires StacksFit(s, words.Length)
    modifies words
    ensures newSp == NewSp(s) && newBp == oldBp + Offset(s)
    ensures forall k | 0 <= k < words.Length :: words[k] == MovedWord(s, old(words[..]), k)
  {
    newSp, newBp := s.oldSp + Offset(s), oldBp + Offset(s);
    CopyWords(words, newSp / 4, s.oldSp / 4, Depth(s) / 4);
    RebaseWords(words, s);
  }

  method RebaseWords(words: array<int>, s: Stacks)
    requires StacksFit(s, words.Length)
    modifies words
    ensures forall k | 0 <= k < words.Length ::
              words[k] == if Visited(s, 4 * k) then Rebase(s, old(words[k])) else old(words[k])
  {
    var i := s.sp;
    while i > s.sp - s.size
      invariant i % 4 == 0 && s.sp - s.size - 4 < i <= s.sp
      invariant forall k | 0 <= k < words.Length ::
                  words[k] == if i < 4 * k <= s.sp then Rebase(s, old(words[k])) else old(words[k])
    {
      var tmp := words[i / 4];
      if s.oldSp < tmp < s.top { words[i / 4] := tmp + Offset(s); }
      i := i - 4;
    }
  }

  method CopyWords(words: array<int>, to: nat, from: nat, n: nat)
    requires from + n <= words.Length && to + n <= words.Length && (from + n <= to || to + n <= from)
    modifies words
    ensures forall k | 0 <= k < words.Length ::
              words[k] == if to <= k < to + n then old(words[k - to + from]) else old(words[k])
  {
    var k := 0;
    while k < n
      invariant 0 <= k <= n
      invariant forall j | 0 <= j < words.Length ::
                  words[j] == if to <= j < to + k then old(words[j - to + from]) else old(words[j])
    {
      words[to + k] := words[from + k];
      k := k + 1;
    }
  }

  /** The words w and m of memory before and after: every copied word is moved. */
  ghost predicate MovesAll(s: Stacks, w: seq<int>)
    requires StacksFit(s, |w|)
  {
    forall a | s.oldSp <= a < s.top && a % 4 == 0 ::
      MovedWord(s, w, (a + Offset(s)) / 4) == Rebase(s, w[a / 4])
  }

  /** The words copied are all visited, whatever they are, exactly when the old stack is not as deep as the new one is
      long, or is empty. (To a stack that stays where it is, nothing happens at all.) */
  lemma MovesAllWhen(s: Stacks, n: nat)
    requires StacksFit(s, n) && Offset(s) != 0
    ensures (forall w: seq<int> | |w| == n :: MovesAll(s, w)) <==> Depth(s) < s.size || Depth(s) == 0
  {
    if Depth(s) < s.size || Depth(s) == 0 {
      forall w: seq<int> | |w| == n ensures MovesAll(s, w) {
        Moves(s, w);
      }
    } else {
      var w := seq(n, k => s.oldSp + 1);
      MovesOne(s, w, s.oldSp);
      assert !MovesAll(s, w);
    }
  }

  /** Where the word at address a of the old stack goes. */
  lemma Goes(s: Stacks, n: nat, a: int)
    requires StacksFit(s, n) && s.oldSp <= a < s.top && a % 4 == 0
    ensures var k, to, from := (a + Offset(s)) / 4, NewSp(s) / 4, s.oldSp / 4;
      && 4 * k == a + Offset(s) && 0 <= k < n
      && to <= k < to + Depth(s) / 4 && k - to + from == a / 4
  {
    var p, q, r, b := s.sp / 4, s.oldSp / 4, s.top / 4, a / 4;
    assert s.sp == 4 * p && s.oldSp == 4 * q && s.top == 4 * r && a == 4 * b;
    assert a + Offset(s) == 4 * (b + p - r) && NewSp(s) == 4 * (q + p - r) && Depth(s) == 4 * (r - q);
  }

  lemma MovesOne(s: Stacks, w: seq<int>, a: int)
    requires StacksFit(s, |w|) && s.oldSp <= a < s.top && a % 4 == 0
    ensures var k := (a + Offset(s)) / 4;
      && 4 * k == a + Offset(s) && 0 <= k < |w|
      && MovedWord(s, w, k) == if s.sp - s.size < a + Offset(s) then Rebase(s, w[a / 4]) else w[a / 4]
  {
    Goes(s, |w|, a);
    hide Offset, Depth, NewSp, Rebase;
    LowEnough(s, |w|, a);
  }

  lemma LowEnough(s: Stacks, n: nat, a: int)
    requires StacksFit(s, n) && s.oldSp <= a < s.top
    ensures a + Offset(s) < s.sp
  {}

  lemma Moves(s: Stacks, w: seq<int>)
    requires StacksFit(s, |w|) && (Depth(s) < s.size || Depth(s) == 0)
    ensures MovesAll(s, w)
  {
    hide MovedWord;
    forall a | s.oldSp <= a < s.top && a % 4 == 0
      ensures MovedWord(s, w, (a + Offset(s)) / 4) == Rebase(s, w[a / 4])
    {
      MovesOne(s, w, a);
    }
  }

  /** A chain of saved base pointers: every one but the last is the address, within the stack, of the next. */
  ghost predicate ChainLinked(w: seq<int>, chain: seq<int>, lo: int, hi: int) {
    forall k | 0 <= k < |chain| - 1 ::
      lo < chain[k] < hi && chain[k] % 4 == 0 && 0 <= chain[k] / 4 < |w| && w[chain[k] / 4] == chain[k + 1]
  }

  function RebaseAll(s: Stacks, chain: seq<int>): (r: seq<int>)
    ensures |r| == |chain|
  {
    seq(|chain|, k requires 0 <= k < |chain| => Rebase(s, chain[k]))
  }

  /** The frames of the callers, found from the new base pointer on the new stack, are those found from the old one,
      each moved by the offset. */
  lemma ChainMoves(s: Stacks, w: seq<int>, m: seq<int>, chain: seq<int>)
    requires StacksFit(s, |w|) && |m| == |w| && Depth(s) < s.size
    requires forall k | 0 <= k < |w| :: m[k] == MovedWord(s, w, k)
    requires ChainLinked(w, chain, s.oldSp, s.top)
    ensures ChainLinked(m, RebaseAll(s, chain), NewSp(s), s.sp)
    ensures forall k | 0 <= k < |chain| && !(s.oldSp < chain[k] < s.top) :: RebaseAll(s, chain)[k] == chain[k]
  {
    hide MovedWord, Rebase, Depth;
    var moved := RebaseAll(s, chain);
    forall k | 0 <= k < |moved| - 1
      ensures NewSp(s) < moved[k] < s.sp && moved[k] % 4 == 0 && 0 <= moved[k] / 4 < |m|
      ensures m[moved[k] / 4] == moved[k + 1]
    {
      LinkMoves(s, w, chain[k]);
    }
    forall k | 0 <= k < |chain| && !(s.oldSp < chain[k] < s.top) ensures moved[k] == chain[k] {
      Stays(s, chain[k]);
    }
  }

  lemma Stays(s: Stacks, v: int)
    requires !(s.oldSp < v < s.top)
    ensures Rebase(s, v) == v
  {}

  lemma LinkMoves(s: Stacks, w: seq<int>, a: int)
    requires StacksFit(s, |w|) && Depth(s) < s.size && s.oldSp < a < s.top && a % 4 == 0
    ensures var b := Rebase(s, a);
      NewSp(s) < b < s.sp && b % 4 == 0 && 0 <= b / 4 < |w| && MovedWord(s, w, b / 4) == Rebase(s, w[a / 4])
  {
    hide MovedWord;
    MovesOne(s, w, a);
  }

  /** The pages the mapping loop visits, downwards from that of sp. */
  ghost predicate MapsPage(sp: int, size: nat, v: int) {
    exists k :: 0 <= k <= size / FRAME_SIZE && v == (sp - k * FRAME_SIZE) / FRAME_SIZE
  }

  lemma MappedRange(sp: int, size: nat, v: int)
    requires sp >= size
    ensures MapsPage(sp, size, v) <==> sp / FRAME_SIZE - size / FRAME_SIZE <= v <= sp / FRAME_SIZE
  {
    if MapsPage(sp, size, v) {
      var k :| 0 <= k <= size / FRAME_SIZE && v == (sp - k * FRAME_SIZE) / FRAME_SIZE;
      PageBelow(sp, k);
    }
    if sp / FRAME_SIZE - size / FRAME_SIZE <= v <= sp / FRAME_SIZE {
      PageBelow(sp, sp / FRAME_SIZE - v);
      assert 0 <= sp / FRAME_SIZE - v <= size / FRAME_SIZE;
    }
  }

  lemma PageBelow(sp: int, k: int)
    ensures (sp - k * FRAME_SIZE) / FRAME_SIZE == sp / FRAME_SIZE - k
  {}

  ghost predicate AllMapped(sp: int, size: nat) {
    forall a | sp - size < a <= sp && a % 4 == 0 :: MapsPage(sp, size, a / FRAME_SIZE)
  }

  /** Every word the last loop visits lies in a page that has been mapped exactly when the lowest of them does. For a
      new stack that starts a page and is whole pages long that is always so. */
  lemma VisitsMapped(sp: int, size: nat)
    requires sp % 4 == 0 && size % 4 == 0 && 0 < size <= sp
    ensures AllMapped(sp, size) <==> sp / FRAME_SIZE - size / FRAME_SIZE <= (sp - size + 4) / FRAME_SIZE
    ensures size % FRAME_SIZE == 0 ==> AllMapped(sp, size)
  {
    hide AllMapped;
    if sp / FRAME_SIZE - size / FRAME_SIZE <= (sp - size + 4) / FRAME_SIZE { LowestMapped(sp, size); }
    if AllMapped(sp, size) { MappedLowest(sp, size); }
    if size % FRAME_SIZE == 0 {
      PageBelow(sp, size / FRAME_SIZE);
      PagesInOrder(sp - size, sp - size + 4);
    }
  }

  lemma MappedLowest(sp: int, size: nat)
    requires sp % 4 == 0 && size % 4 == 0 && 0 < size <= sp && AllMapped(sp, size)
    ensures sp / FRAME_SIZE - size / FRAME_SIZE <= (sp - size + 4) / FRAME_SIZE
  {
    hide MapsPage;
    var low := sp - size + 4;
    assert MapsPage(sp, size, low / FRAME_SIZE);
    MappedRange(sp, size, low / FRAME_SIZE);
  }

  lemma LowestMapped(sp: int, size: nat)
    requires sp % 4 == 0 && size % 4 == 0 && 0 < size <= sp
    requires sp / FRAME_SIZE - size / FRAME_SIZE <= (sp - size + 4) / FRAME_SIZE
    ensures AllMapped(sp, size)
  {
    hide MapsPage;
    forall a | sp - size < a <= sp && a % 4 == 0 ensures MapsPage(sp, size, a / FRAME_SIZE) {
      PagesInOrder(sp - size + 4, a);
      PagesInOrder(a, sp);
      MappedRange(sp, size, a / FRAME_SIZE);
    }
  }

  lemma PagesInOrder(a: int, b: int)
    requires a <= b
    ensures a / FRAME_SIZE <= b / FRAME_SIZE
  {}

  const WORD_RANGE := 0x1_0000_0000

  /** The first loop of move_stack ends before its unsigned counter wraps around, or does not start. */
  predicate LoopStops(sp: int, size: nat) {
    size > sp || (size / FRAME_SIZE + 1) * FRAME_SIZE <= sp
  }

  /** The page of the k-th turn of the loop, the address space being a ring. */
  function RingPage(sp: int, k: nat): (v: nat)
    ensures v < PAGES
  {
    (sp / FRAME_SIZE - k) % PAGES
  }

  /** Page v has been visited in the first k turns. */
  ghost predicate Seen(sp: int, k: nat, v: nat) {
    (sp / FRAME_SIZE - v) % PAGES < k
  }

  lemma RingStep(sp: int, k: nat, v: nat)
    requires 0 <= sp < WORD_RANGE && k < PAGES && v < PAGES
    ensures Seen(sp, k + 1, v) <==> Seen(sp, k, v) || v == RingPage(sp, k)
    ensures !Seen(sp, k, RingPage(sp, k))
  {}

  lemma RingRemainder(x: int)
    requires -WORD_RANGE <= x < WORD_RANGE
    ensures x % WORD_RANGE == if x >= 0 then x else x + WORD_RANGE
  {}

  lemma RingAddress(sp: int, k: nat)
    requires 0 <= sp < WORD_RANGE && k < PAGES
    ensures var i := (sp - k * FRAME_SIZE) % WORD_RANGE;
      && i / FRAME_SIZE == RingPage(sp, k) && (i - FRAME_SIZE) % WORD_RANGE == (sp - (k + 1) * FRAME_SIZE) % WORD_RANGE
      && i == if k * FRAME_SIZE <= sp then sp - k * FRAME_SIZE else sp - k * FRAME_SIZE + WORD_RANGE
  {
    RingRemainder(sp - k * FRAME_SIZE);
    RingRemainder((sp - k * FRAME_SIZE) % WORD_RANGE - FRAME_SIZE);
    RingRemainder(sp - (k + 1) * FRAME_SIZE);
  }

  lemma {:induction false} SubsetSize(a: set<nat>, b: set<nat>)
    requires a <= b
    ensures |a| <= |b|
    decreases |a|
  {
    if a != {} {
      var x :| x in a;
      SubsetSize(a - {x}, b - {x});
    }
  }

  /** These are the frames of the k pages seen so far, one for each. */
  ghost predicate Collected(p: Pager, d: Directory, sp: int, k: nat, frames: set<nat>)
    requires |d.tables| == ENTRIES
    reads p.bitmap.words, d, d.tables
  {
    && |frames| == k && frames <= p.UsedFrames() - {0}
    && forall f | f in frames :: exists v: nat :: v < PAGES && Seen(sp, k, v) && FrameOf(d, v) == f
  }

  lemma FewFrames(p: Pager, frames: set<nat>)
    requires 0 in p.UsedFrames() && frames <= p.UsedFrames() - {0}
    ensures |frames| < BITS * p.bitmap.words.Length
  {
    hide IsSet, Count, Used;
    CountIsUsed(p.bitmap.words[..]);
    CountAtMost(p.bitmap.words[..], BITS * p.bitmap.words.Length);
    SubsetSize(frames, p.UsedFrames() - {0});
  }

  /** The frame of the next page is none of those. */
  lemma AnotherFrame(p: Pager, d: Directory, sp: int, k: nat, frames: set<nat>, q: nat)
    requires p.Valid() && p.Registered(d) && 0 <= sp < WORD_RANGE && k < PAGES && q == RingPage(sp, k)
    requires Collected(p, d, sp, k, frames) && FrameOf(d, q) != 0 && FrameOf(d, q) in p.UsedFrames()
    ensures Collected(p, d, sp, k + 1, frames + {FrameOf(d, q)})
  {
    hide Pager.Ledger, Used, Seen, RingPage;
    RingStep(sp, k, q);
    forall v: nat | v < PAGES && Seen(sp, k, v) ensures FrameOf(d, v) != FrameOf(d, q) && Seen(sp, k + 1, v) {
      RingStep(sp, k, v);
      OneEntryPerFrame(p, d, d, q, v);
    }
    var more := frames + {FrameOf(d, q)};
    forall f | f in more ensures exists v: nat :: v < PAGES && Seen(sp, k + 1, v) && FrameOf(d, v) == f {
      if f in frames {
        var v: nat :| v < PAGES && Seen(sp, k, v) && FrameOf(d, v) == f;
        assert Seen(sp, k + 1, v);
      } else {
        assert Seen(sp, k + 1, q) && FrameOf(d, q) == f;
      }
    }
  }

  /** One turn of the loop. */
  method MapTurn(p: Pager, d: Directory, sp: nat, i: nat, ghost k: nat, ghost frames: set<nat>)
    returns (ok: bool, ghost more: set<nat>)
    requires p.Valid() && p.Registered(d) && 0 in p.UsedFrames()
    requires sp < WORD_RANGE && k < PAGES && i == (sp - k * FRAME_SIZE) % WORD_RANGE && Collected(p, d, sp, k, frames)
    modifies p`owner, p`tables, p`placement, p.bitmap.words, d, d.tables
    ensures p.Valid() && p.Registered(d) && 0 in p.UsedFrames()
    ensures forall j | 0 <= j < ENTRIES && d.tables[j] != old(d.tables)[j] ::
              old(d.tables)[j] == null && fresh(d.tables[j])
    ensures forall v: nat | v < PAGES && v != RingPage(sp, k) :: EntryOf(d, v) == old(EntryOf(d, v))
    ensures ok ==> Given(old(EntryOf(d, RingPage(sp, k))), EntryOf(d, RingPage(sp, k)), false, true)
    ensures ok ==> Collected(p, d, sp, k + 1, more) && k + 1 < BITS * p.bitmap.words.Length
    ensures !ok ==> AllUsed(p.bitmap.words[..])
  {
    hide Pager.Ledger, Used, AllUsed, EntryOf, Seen, RingPage;
    RingAddress(sp, k);
    ghost var q := RingPage(sp, k);
    more := frames;
    ok := MapPage(p, d, i, false, true);
    if ok {
      forall v: nat | v < PAGES && Seen(sp, k, v) ensures v != q && FrameOf(d, v) == old(FrameOf(d, v)) {
        RingStep(sp, k, v);
      }
      FrameInUse(p, d, q);
      AnotherFrame(p, d, sp, k, frames, q);
      more := frames + {FrameOf(d, q)};
      FewFrames(p, more);
    }
  }

  /** When the counter is at its k-th value, how far it has come. */
  lemma RingTurns(sp: nat, size: nat, k: nat)
    requires size <= sp < WORD_RANGE && k < PAGES
    ensures var i := (sp - k * FRAME_SIZE) % WORD_RANGE;
      && (LoopStops(sp, size) && k <= size / FRAME_SIZE ==> i >= sp - size)
      && (LoopStops(sp, size) && k == size / FRAME_SIZE + 1 ==> i < sp - size)
      && (!LoopStops(sp, size) ==> i >= sp - size)
  {
    RingAddress(sp, k);
  }

  lemma SeenIsMapped(sp: nat, size: nat, v: nat)
    requires size <= sp < WORD_RANGE && LoopStops(sp, size) && v < PAGES
    ensures Seen(sp, size / FRAME_SIZE + 1, v) <==> MapsPage(sp, size, v)
  {
    MappedRange(sp, size, v);
  }

  /** The first loop of move_stack, with its unsigned counter. If it stops, it has given a frame to every page from sp
      downwards and touched no other; if it would wrap around, it goes on until alloc_frame panics. A result of false
      is that PANIC. */
  method MapStack(p: Pager, d: Directory, sp: nat, size: nat) returns (ok: bool)
    requires p.Valid() && p.Registered(d) && 0 in p.UsedFrames()
    requires sp < WORD_RANGE && size < WORD_RANGE
    modifies p`owner, p`tables, p`placement, p.bitmap.words, d, d.tables
    ensures p.Valid() && p.Registered(d)
    ensures ok ==> LoopStops(sp, size)
    ensures !ok ==> AllUsed(p.bitmap.words[..])
    ensures ok ==> forall v: nat | v < PAGES ::
              if size <= sp && MapsPage(sp, size, v) then Given(old(EntryOf(d, v)), EntryOf(d, v), false, true)
              else EntryOf(d, v) == old(EntryOf(d, v))
  {
    hide Pager.Ledger, Used, AllUsed, EntryOf, Given, MapsPage, Seen, RingPage, Collected, LoopStops;
    var bound := (sp - size) % WORD_RANGE;
    if size > sp {
      assert sp < bound;
      NeverStarts(sp, size);
      return true;
    }
    var i := sp;
    ghost var k, frames := 0, {};
    NoneSeen(p, d, sp);
    while i >= bound
      invariant p.Valid() && p.Registered(d) && 0 in p.UsedFrames()
      invariant k < BITS * p.bitmap.words.Length <= PAGES && i == (sp - k * FRAME_SIZE) % WORD_RANGE
      invariant LoopStops(sp, size) ==> k <= size / FRAME_SIZE + 1
      invariant Collected(p, d, sp, k, frames)
      invariant forall j | 0 <= j < ENTRIES && d.tables[j] != old(d.tables)[j] ::
                  old(d.tables)[j] == null && fresh(d.tables[j])
      invariant forall v: nat | v < PAGES && Seen(sp, k, v) :: Given(old(EntryOf(d, v)), EntryOf(d, v), false, true)
      invariant forall v: nat | v < PAGES && !Seen(sp, k, v) :: EntryOf(d, v) == old(EntryOf(d, v))
      decreases BITS * p.bitmap.words.Length - k
    {
      RingTurns(sp, size, k);
      RingAddress(sp, k);
      forall v: nat | v < PAGES ensures Seen(sp, k + 1, v) <==> Seen(sp, k, v) || v == RingPage(sp, k) {
        RingStep(sp, k, v);
      }
      RingStep(sp, k, RingPage(sp, k));
      ok, frames := MapTurn(p, d, sp, i, k, frames);
      if !ok {
        return;
      }
      i := (i - FRAME_SIZE) % WORD_RANGE;
      k := k + 1;
    }
    ok := true;
    RingTurns(sp, size, k);
    forall v: nat | v < PAGES ensures Seen(sp, k, v) <==> MapsPage(sp, size, v) {
      SeenIsMapped(sp, size, v);
    }
  }

  lemma NeverStarts(sp: nat, size: nat)
    requires size > sp
    ensures LoopStops(sp, size)
  {}

  lemma NoneSeen(p: Pager, d: Directory, sp: nat)
    requires |d.tables| == ENTRIES && 0 in p.UsedFrames()
    ensures Collected(p, d, sp, 0, {}) && forall v: nat :: !Seen(sp, 0, v)
    ensures 0 < BITS * p.bitmap.words.Length
  {}
}
