/** Machine-level vocabulary of the allocator: the width of size_t on an LP64
    target, the size of a chunk header, the ALIGN macro, the exit codes and
    the rounding function `align` (main.c:32-34).
 */
module Machine {

  /** The outcome of a list walk: the position where the walk stopped, or
      None when it ran off the end of the list. */
  datatype Option<T> = None | Some(value: T)

  /** size_t is 64 bits wide; every size_t operation is taken modulo 2^64. */
  const SizeMod: nat := 0x1_0000_0000_0000_0000
  const SizeMax: nat := SizeMod - 1
  type SizeT = n: nat | n < SizeMod

  /** sizeof(mem_chunk): one size_t and one pointer. */
  const Header: nat := 16

  /** The ALIGN macro, the divisor of the merge test's pointer arithmetic.
      It equals the header size, so "a multiple of the header size" (what
      align produces) and "a multiple of ALIGN" are one condition. */
  const AlignUnit: nat := Header

  /** The values of EXIT_SUCCESS and EXIT_FAILURE from stdlib.h. */
  const ExitSuccess: int := 0
  const ExitFailure: int := 1

  /** `(bytes + 15) & ~15` on size_t: round up to a multiple of the header
      size, except that the addition wraps for the top fifteen values, which
      then round to zero. */
  function Align(bytes: SizeT): (r: SizeT)
    ensures r % Header == 0
    ensures bytes + Header <= SizeMod ==> bytes <= r < bytes + Header
    ensures SizeMod < bytes + Header ==> r == 0
  {
    var sum := (bytes + Header - 1) % SizeMod;
    sum / Header * Header
  }

  /** Two multiples of the header size that differ, differ by a whole header. */
  lemma MultiplesApart(x: int, y: int)
    requires x % Header == 0 && y % Header == 0
    requires y < x
    ensures y + Header <= x
  {
    assert x == Header * (x / Header);
    assert y == Header * (y / Header);
    assert y / Header < x / Header;
  }

  /** Align picks the least multiple of the header size that is not below the
      request, whenever the rounding does not wrap. */
  lemma AlignIsLeast(bytes: SizeT, m: int)
    requires bytes + Header <= SizeMod
    requires m % Header == 0 && bytes <= m
    ensures Align(bytes) <= m
  {
    if m < Align(bytes) {
      MultiplesApart(Align(bytes), m);
    }
  }

  /** Aligning twice is aligning once: memalloc aligns a request and incr_brk
      aligns it again (main.c:83, 100). */
  lemma AlignIdempotent(bytes: SizeT)
    ensures Align(Align(bytes)) == Align(bytes)
  {
    var a := Align(bytes);
    MultiplesApart(SizeMod, a);
    AlignIsLeast(a, a);
  }
}
