/** The 64-bit memory under the pool: eight-byte words by byte address, and the
    regions malloc has handed out and not yet got back. */
module RawMemory {

  const ADDRESS_SPACE: int := 0x1_0000_0000_0000_0000

  /** `ngx_align_ptr(p, 8)` in unsigned 64-bit arithmetic. Masking with the
      complement of 7 takes the remainder by 8 away. */
  function AlignPtr(p: int): int {
    var t := (p + 7) % ADDRESS_SPACE;
    t - t % 8
  }

  /** The difference of two pointers, read back as an unsigned `size_t`. */
  function Sub64(a: int, b: int): int {
    (a - b) % ADDRESS_SPACE
  }

  /** Rounding up stays inside whatever ends at a multiple of 8. */
  lemma AlignPtrRoundsUp(p: int, end: int)
    requires 0 <= p <= end && end < ADDRESS_SPACE && end % 8 == 0
    ensures AlignPtr(p) == (p + 7) / 8 * 8 && AlignPtr(p) % 8 == 0 && p <= AlignPtr(p) <= end
  {
  }

  lemma AlignedAlready(base: int, off: int)
    requires base % 16 == 0 && off % 8 == 0
    ensures (base + off + 7) / 8 * 8 == base + off
  {
  }

  lemma EndAligned(base: int, psize: int)
    requires base % 16 == 0 && psize % 8 == 0
    ensures (base + psize) % 8 == 0
  {
  }

  /** The word around a byte. */
  function WordOf(a: int): int { a - a % 8 }

  lemma WordStaysPast(a: int, e: int)
    requires e % 8 == 0 && e <= a
    ensures e <= WordOf(a) <= a
  {
  }

  lemma Sub64Value(a: int, b: int)
    requires 0 <= a < ADDRESS_SPACE && 0 <= b < ADDRESS_SPACE
    ensures Sub64(a, b) == if b <= a then a - b else a - b + ADDRESS_SPACE
  {
  }

  /** malloc(0) still returns an address of its own. */
  function Extent(size: int): int {
    if size <= 0 then 1 else size
  }

  predicate Apart(a: int, m: int, b: int, n: int) {
    a + m <= b || b + n <= a
  }

  /** Where malloc may put a new region: off NULL, 16-aligned, inside the
      address space and clear of every live region. */
  predicate CanPlace(live: map<int, int>, a: int, size: int) {
    && 0 < a && a % 16 == 0 && a + Extent(size) < ADDRESS_SPACE
    && forall r | r in live :: Apart(r, Extent(live[r]), a, Extent(size))
  }

  ghost predicate LiveApart(live: map<int, int>) {
    && (forall r | r in live :: 0 < r)
    && forall r, s | r in live && s in live && r != s :: Apart(r, Extent(live[r]), s, Extent(live[s]))
  }

  /** `words` is what memory holds, whether or not it is allocated; `live` maps
      the start of each allocated region to its size. */
  datatype Heap = Heap(words: map<int, int>, live: map<int, int>) {

    function Word(a: int): int {
      if a in words then words[a] else 0
    }

    /** The n bytes at a lie inside one allocated region. */
    predicate Owned(a: int, n: int) {
      exists r :: r in live && r <= a && a + n <= r + live[r]
    }

    /** Reading a word that is not allocated is an error, so it is excluded. */
    function Load(a: int): int
      requires Owned(a, 8)
    {
      Word(a)
    }

    function Store(a: int, v: int): Heap
      requires Owned(a, 8)
    {
      Heap(words[a := v], live)
    }

    /** free(): a second free of the same region is an error, free(NULL) is not. */
    function Free(a: int): Heap
      requires a == 0 || a in live
    {
      Heap(words, live - {a})
    }
  }

  /** malloc(): the allocator may return any address that can be placed; an
      address that cannot stands for its failure, which returns NULL. */
  function Malloc(live: map<int, int>, size: int, choice: int): (a: int)
    ensures a == 0 || CanPlace(live, a, size)
  {
    if CanPlace(live, choice, size) then choice else 0
  }

  lemma PlaceKeepsApart(live: map<int, int>, a: int, size: int)
    requires LiveApart(live) && CanPlace(live, a, size)
    ensures LiveApart(live[a := size]) && a !in live
  {
    assert a in live ==> Apart(a, Extent(live[a]), a, Extent(size));
  }
}
