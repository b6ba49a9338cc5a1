/** What the order of the index decides: which of the holes that fit is taken. */
module HoleOrder {
  import opened Memory
  import opened HeapInvariant
  import opened OrderedArrays
  import opened HeapSizes
  import opened KernelHeap
  import opened HeapAsWritten

  function SizeAt(m: Mem, a: int): int {
    if InBounds(m, a, HEADER_SIZE) then HeaderAt(m, a).size else 0
  }

  /** The comparison that header_t_less_then is meant to make. */
  function BySize(m: Mem): Less<int> {
    (a: int, b: int) => SizeAt(m, a) < SizeAt(m, b)
  }

  /** With it the index is sorted by insertion, as OrderedArrays.InsertedSorted says. */
  lemma BySizeOrders(m: Mem, index: seq<int>, hole: int)
    requires SortedBy(BySize(m), index)
    ensures StrictWeakOrder(BySize(m))
    ensures SortedBy(BySize(m), Inserted(BySize(m), index, hole))
  {
    InsertedSorted(BySize(m), index, hole);
  }

  /** The first hole that fits, or -1: what find_smallest_hole returns for a request that need not be aligned. */
  predicate IsFirstFit(m: Mem, index: seq<int>, n: int, at: int) {
    && -1 <= at < |index|
    && (forall i | 0 <= i < (if at == -1 then |index| else at) :: SizeAt(m, index[i]) < n)
    && (at >= 0 ==> SizeAt(m, index[at]) >= n)
  }

  predicate IsSmallestFit(m: Mem, index: seq<int>, n: int, at: int) {
    && -1 <= at < |index|
    && (at == -1 ==> forall i | 0 <= i < |index| :: SizeAt(m, index[i]) < n)
    && (at >= 0 ==> SizeAt(m, index[at]) >= n)
    && (at >= 0 ==> forall i | 0 <= i < |index| && SizeAt(m, index[i]) >= n ::
          SizeAt(m, index[at]) <= SizeAt(m, index[i]))
  }

  lemma SortedFindsSmallest(m: Mem, index: seq<int>, n: int, at: int)
    requires SortedBy(BySize(m), index) && IsFirstFit(m, index, n, at)
    ensures IsSmallestFit(m, index, n, at)
  {
    if at >= 0 {
      forall i | 0 <= i < |index| && SizeAt(m, index[i]) >= n ensures SizeAt(m, index[at]) <= SizeAt(m, index[i]) {
        if at < i { assert !BySize(m)(index[i], index[at]); }
      }
    }
  }

  /** For a request that need not be aligned, find_smallest_hole returns the first fit, and a smallest fit if the index
      happens to be sorted by size. */
  method FindUnaligned(h: Heap, n: int) returns (at: int)
    requires h.Valid()
    ensures IsFirstFit(h.mem, h.index.Contents(), n, at)
    ensures SortedBy(BySize(h.mem), h.index.Contents()) ==> IsSmallestFit(h.mem, h.index.Contents(), n, at)
  {
    hide HeapOk, HeaderAt;
    at := h.FindSmallestHole(n, false);
    if SortedBy(BySize(h.mem), h.index.Contents()) { SortedFindsSmallest(h.mem, h.index.Contents(), n, at); }
  }

  /** header_t_less_then as it stands is the comparison that never holds. */
  lemma ComparesNothing(m: Mem, a: int, b: int)
    requires InBounds(m, a, HEADER_SIZE)
    ensures LessAsWritten(m, a, b) == HEADER_LESS_THEN(a, b)
  {}

  /** So an insertion keeps the index sorted exactly when the new hole is not larger than the one in front. */
  lemma StackKeepsOrder(m: Mem, index: seq<int>, hole: int)
    requires SortedBy(BySize(m), index)
    ensures SortedBy(BySize(m), Inserted(HEADER_LESS_THEN, index, hole))
            <==> index == [] || SizeAt(m, hole) <= SizeAt(m, index[0])
  {
    NeverLessInsertsInFront(HEADER_LESS_THEN, index, hole);
    var t := [hole] + index;
    if SortedBy(BySize(m), t) && index != [] { assert !BySize(m)(t[1], t[0]); }
    if index == [] || SizeAt(m, hole) <= SizeAt(m, index[0]) {
      forall i, j | 0 <= i < j < |t| ensures !BySize(m)(t[j], t[i]) {
        if i > 0 {
          assert !BySize(m)(index[j - 1], index[i - 1]);
        } else if j > 1 {
          assert !BySize(m)(index[j - 1], index[0]);
        }
      }
    }
  }

  /** And a larger hole in front is then taken, in place of a smaller one that fits. */
  lemma StackFindsLarger(m: Mem, hole: int, larger: int)
    requires SizeAt(m, hole) < SizeAt(m, larger)
    ensures var index := Inserted(HEADER_LESS_THEN, [hole], larger);
      IsFirstFit(m, index, SizeAt(m, hole), 0) && !IsSmallestFit(m, index, SizeAt(m, hole), 0)
  {
    NeverLessInsertsInFront(HEADER_LESS_THEN, [hole], larger);
    var index := [larger] + [hole];
    assert index[1] == hole;
  }

  /** No gap in front of an aligned block is smaller than FrontGap, if a hole must fit in it. */
  lemma GapIsLeast(pos: nat, g: nat)
    requires (pos + g + HEADER_SIZE) % PAGE_SIZE == 0 && (g == 0 || g >= MIN_REGION)
    ensures FrontGap(pos, true) <= g
  {
    var x, y := pos + HEADER_SIZE, pos + g + HEADER_SIZE;
    assert y == PAGE_SIZE * (y / PAGE_SIZE);
    assert x == PAGE_SIZE * (x / PAGE_SIZE) + x % PAGE_SIZE;
  }
}
