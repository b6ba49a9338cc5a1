/** The ordered array that indexes the heap's holes, with its comparison function as a parameter. */
module OrderedArrays {

  type Less<!T> = (T, T) -> bool

  /** What a comparison function must satisfy for "sorted" to make sense. */
  ghost predicate StrictWeakOrder<T(!new)>(less: Less<T>) {
    && (forall x :: !less(x, x))
    && (forall x, y, z :: less(x, y) && less(y, z) ==> less(x, z))
    && (forall x, y, z :: !less(x, y) && !less(y, z) ==> !less(x, z))
  }

  ghost predicate SortedBy<T>(less: Less<T>, s: seq<T>) {
    forall i, j | 0 <= i < j < |s| :: !less(s[j], s[i])
  }

  /** The position at which the insertion scan stops. */
  function InsertPos<T>(less: Less<T>, s: seq<T>, item: T): (p: nat)
    ensures p <= |s|
    ensures forall i | 0 <= i < p :: less(s[i], item)
    ensures p < |s| ==> !less(s[p], item)
  {
    if s == [] || !less(s[0], item) then 0 else 1 + InsertPos(less, s[1..], item)
  }

  function Inserted<T>(less: Less<T>, s: seq<T>, item: T): seq<T> {
    var p := InsertPos(less, s, item);
    s[..p] + [item] + s[p..]
  }

  function Removed<T>(s: seq<T>, i: nat): seq<T>
    requires i < |s|
  {
    s[..i] + s[i + 1..]
  }

  lemma InsertedMultiset<T>(less: Less<T>, s: seq<T>, item: T)
    ensures multiset(Inserted(less, s, item)) == multiset(s) + multiset{item}
  {
    var p := InsertPos(less, s, item);
    assert s == s[..p] + s[p..];
  }

  lemma RemovedMultiset<T>(s: seq<T>, i: nat)
    requires i < |s|
    ensures multiset(Removed(s, i)) == multiset(s) - multiset{s[i]}
  {
    assert s == s[..i] + ([s[i]] + s[i + 1..]);
  }

  lemma InsertedSorted<T(!new)>(less: Less<T>, s: seq<T>, item: T)
    requires StrictWeakOrder(less) && SortedBy(less, s)
    ensures SortedBy(less, Inserted(less, s, item))
  {
    var p := InsertPos(less, s, item);
    var t := Inserted(less, s, item);
    forall i, j | 0 <= i < j < |t| ensures !less(t[j], t[i]) {
      if i < p && j == p {
        assert t[i] == s[i] && less(s[i], item);
        assert less(item, s[i]) ==> less(item, item);
      } else if i < p && j > p {
        assert t[i] == s[i] && t[j] == s[j - 1];
      } else if i == p && j > p {
        assert t[j] == s[j - 1] && !less(s[p], item);
        if j - 1 > p { assert !less(s[j - 1], s[p]); }
      } else if i > p {
        assert t[i] == s[i - 1] && t[j] == s[j - 1];
      }
    }
  }

  lemma RemovedSorted<T>(less: Less<T>, s: seq<T>, i: nat)
    requires i < |s| && SortedBy(less, s)
    ensures SortedBy(less, Removed(s, i))
  {
    var t := Removed(s, i);
    forall a, b | 0 <= a < b < |t| ensures !less(t[b], t[a]) {
      var a', b' := if a < i then a else a + 1, if b < i then b else b + 1;
      assert t[a] == s[a'] && t[b] == s[b'];
    }
  }

  /** A comparison that never holds turns the ordered array into a stack. */
  lemma NeverLessInsertsInFront<T(!new)>(less: Less<T>, s: seq<T>, item: T)
    requires forall x, y :: !less(x, y)
    ensures Inserted(less, s, item) == [item] + s
  {
    if s != [] { assert !less(s[0], item); }
    assert InsertPos(less, s, item) == 0;
  }

  class OrderedArray<T(0)> {
    /** maxSize slots and the word that follows them: removal reads one slot past the last item. */
    const slots: array<T>
    var size: nat
    const maxSize: nat
    const lessThan: Less<T>

    ghost predicate Valid()
      reads this
    {
      slots.Length == maxSize + 1 && size <= maxSize
    }

    ghost function Contents(): seq<T>
      requires Valid()
      reads this, slots
    {
      slots[..size]
    }

    /** place_ordered_array: the slots are cleared. */
    constructor (maxSize: nat, lessThan: Less<T>, zero: T)
      ensures Valid() && Contents() == [] && this.maxSize == maxSize && this.lessThan == lessThan
      ensures fresh(slots)
    {
      this.maxSize, this.lessThan := maxSize, lessThan;
      slots := new T[maxSize + 1](_ => zero);
      size := 0;
    }

    method Insert(item: T)
      requires Valid() && size < maxSize
      modifies this, slots
      ensures Valid()
      ensures Contents() == Inserted(lessThan, old(Contents()), item)
    {
      ghost var before := Contents();
      var at := 0;
      while at < size && lessThan(slots[at], item)
        invariant at <= size
        invariant InsertPos(lessThan, before, item) == at + InsertPos(lessThan, before[at..], item)
      {
        assert before[at..][1..] == before[at + 1..];
        at := at + 1;
      }
      ghost var after := Inserted(lessThan, before, item);
      assert after == before[..at] + [item] + before[at..];
      if at == size {
        slots[size] := item;
        size := size + 1;
      } else {
        Shift(at, item);
      }
      assert Contents() == after;
    }

    /** The second half of the insertion: item takes slot p and the rest move up by one. */
    method Shift(p: nat, item: T)
      requires Valid() && p < size < maxSize
      modifies this, slots
      ensures Valid()
      ensures Contents() == old(Contents()[..p] + [item] + Contents()[p..])
    {
      ghost var before := Contents();
      var at := p;
      var tmp := slots[at];
      slots[at] := item;
      while at < size
        invariant size == |before|
        invariant p <= at <= size
        invariant at < size ==> tmp == before[at]
        invariant slots[..p] == before[..p] && slots[p] == item
        invariant forall k | p < k <= at :: slots[k] == before[k - 1]
        invariant forall k | at < k < size :: slots[k] == before[k]
      {
        at := at + 1;
        var tmp2 := slots[at];
        slots[at] := tmp;
        tmp := tmp2;
      }
      size := size + 1;
      assert slots[p + 1..size] == before[p..];
      assert slots[..size] == slots[..p] + [slots[p]] + slots[p + 1..size];
    }

    method Lookup(i: nat) returns (item: T)
      requires Valid() && i < size
      ensures item == Contents()[i]
    {
      item := slots[i];
    }

    method Remove(i: nat)
      requires Valid() && i < size
      modifies this, slots
      ensures Valid()
      ensures Contents() == Removed(old(Contents()), i)
    {
      ghost var before := Contents();
      var k := i;
      while k < size
        invariant size == |before|
        invariant i <= k <= size
        invariant forall j | 0 <= j < i :: slots[j] == before[j]
        invariant forall j | i <= j < k && j + 1 < size :: slots[j] == before[j + 1]
        invariant forall j | k <= j < size :: slots[j] == before[j]
      {
        slots[k] := slots[k + 1];
        k := k + 1;
      }
      size := size - 1;
    }
  }
}
