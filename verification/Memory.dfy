/** Byte-addressed memory and the two boundary tags the kernel heap keeps in it.

    A header is 12 bytes (magic, is_hole and three bytes of padding, size) and a
    footer is 8 bytes (magic, address of the header), laid out as the i386
    compiler lays out header_t and footer_t; words are little-endian.
 */
module Memory {

  type Byte = x: int | 0 <= x < 0x100
  type Word = x: int | 0 <= x < 0x1_0000_0000
  type Mem = seq<Byte>

  const HEADER_SIZE := 12
  const FOOTER_SIZE := 8
  const MIN_REGION := HEADER_SIZE + FOOTER_SIZE
  const PAGE_SIZE := 0x1000
  const HEAP_MAGIC: Word := 0x123890AB

  predicate InBounds(m: Mem, a: int, n: nat) {
    0 <= a && a + n <= |m|
  }

  /** The two memories agree on every byte outside [lo, hi). */
  ghost predicate SameOutside(m: Mem, m': Mem, lo: int, hi: int) {
    && |m| == |m'|
    && forall i {:trigger m'[i]} | 0 <= i < |m| && !(lo <= i < hi) :: m'[i] == m[i]
  }

  function Read32(m: Mem, a: int): Word
    requires InBounds(m, a, 4)
  {
    var b0: int, b1: int, b2: int, b3: int := m[a], m[a + 1], m[a + 2], m[a + 3];
    b0 + 0x100 * b1 + 0x1_0000 * b2 + 0x100_0000 * b3
  }

  lemma SplitWord(v: Word, b0: int, b1: int, b2: int, b3: int)
    requires b0 == v % 0x100 && b1 == v / 0x100 % 0x100 && b2 == v / 0x1_0000 % 0x100 && b3 == v / 0x100_0000
    ensures b0 + 0x100 * b1 + 0x1_0000 * b2 + 0x100_0000 * b3 == v
    ensures b0 < 0x100 && b1 < 0x100 && b2 < 0x100 && b3 < 0x100
  {
    assert v / 0x1_0000 == v / 0x100 / 0x100;
    assert v / 0x100_0000 == v / 0x1_0000 / 0x100;
  }

  function Write32(m: Mem, a: int, v: Word): (m': Mem)
    requires InBounds(m, a, 4)
    ensures SameOutside(m, m', a, a + 4)
    ensures Read32(m', a) == v
    ensures forall b {:trigger Read32(m', b)} | InBounds(m, b, 4) && (b + 4 <= a || a + 4 <= b) ::
              Read32(m', b) == Read32(m, b)
  {
    var b0, b1, b2, b3 := v % 0x100, v / 0x100 % 0x100, v / 0x1_0000 % 0x100, v / 0x100_0000;
    SplitWord(v, b0, b1, b2, b3);
    m[a := b0][a + 1 := b1][a + 2 := b2][a + 3 := b3]
  }

  function Write8(m: Mem, a: int, v: Byte): (m': Mem)
    requires InBounds(m, a, 1)
    ensures SameOutside(m, m', a, a + 1)
    ensures m'[a] == v
    ensures forall b {:trigger Read32(m', b)} | InBounds(m, b, 4) && (b + 4 <= a || a < b) ::
              Read32(m', b) == Read32(m, b)
  {
    m[a := v]
  }

  /** A header at address a: the three fields, the flag being the single byte at a + 4. */
  datatype Header = Header(magic: Word, isHole: Byte, size: Word)

  datatype Footer = Footer(magic: Word, header: Word)

  function HeaderAt(m: Mem, a: int): Header
    requires InBounds(m, a, HEADER_SIZE)
  {
    Header(Read32(m, a), m[a + 4], Read32(m, a + 8))
  }

  function FooterAt(m: Mem, f: int): Footer
    requires InBounds(m, f, FOOTER_SIZE)
  {
    Footer(Read32(m, f), Read32(m, f + 4))
  }

  function WriteHeader(m: Mem, a: int, isHole: Byte, size: Word): (m': Mem)
    requires InBounds(m, a, HEADER_SIZE)
    ensures SameOutside(m, m', a, a + HEADER_SIZE)
    ensures HeaderAt(m', a) == Header(HEAP_MAGIC, isHole, size)
    ensures forall b {:trigger Read32(m', b)} | InBounds(m, b, 4) && (b + 4 <= a || a + HEADER_SIZE <= b) ::
              Read32(m', b) == Read32(m, b)
  {
    Write32(Write8(Write32(m, a, HEAP_MAGIC), a + 4, isHole), a + 8, size)
  }

  function WriteFooter(m: Mem, f: int, header: Word): (m': Mem)
    requires InBounds(m, f, FOOTER_SIZE)
    ensures SameOutside(m, m', f, f + FOOTER_SIZE)
    ensures FooterAt(m', f) == Footer(HEAP_MAGIC, header)
    ensures forall b {:trigger Read32(m', b)} | InBounds(m, b, 4) && (b + 4 <= f || f + FOOTER_SIZE <= b) ::
              Read32(m', b) == Read32(m, b)
  {
    Write32(Write32(m, f, HEAP_MAGIC), f + 4, header)
  }
}
