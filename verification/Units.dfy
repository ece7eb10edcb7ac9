/** Sizes, limits and small helpers shared by every part of the driver model. */
module Units {

  /** A shadow-buffer page, equal to the metadata block size. */
  const PAGE := 4096

  /** A GPU page of the NVIDIA peer-to-peer page table. */
  const GPU_PAGE := 65536

  /** Shadow pages in one GPU page. */
  const PAGES_PER_GPU_PAGE := 16

  /** Largest number of pages in one shadow buffer. */
  const MAX_SHADOW_PAGES := 4096

  /** Longest physically contiguous GPU range, in GPU pages (4 GiB less 64 KiB). */
  const MAX_CONTIG_GPU_PAGES := 65535

  /** Most hole regions that fit in the user's end-fence page. */
  const MAX_HOLE_REGIONS := 768

  const U64_LIMIT := 0x1_0000_0000_0000_0000
  const S64_MAX := 0x7fff_ffff_ffff_ffff

  datatype Option<+T> = None | Some(value: T)

  function Min(a: int, b: int): int {
    if a <= b then a else b
  }

  function DivUp(a: nat, b: nat): nat
    requires b > 0
  {
    (a + b - 1) / b
  }

  function RoundUp(a: nat, b: nat): nat
    requires b > 0
  {
    DivUp(a, b) * b
  }

  /** Division with remainder has one answer. */
  lemma QuotientUnique(x: int, g: int, q: int, r: int)
    requires g > 0 && x == q * g + r && 0 <= r < g
    ensures x / g == q && x % g == r
  {
    assert (x / g - q) * g == r - x % g;
    MultipleGrows(x / g - q, g);
  }

  /** A non-zero multiple of `g` is at least `g` away from zero. */
  lemma MultipleGrows(d: int, g: int)
    requires g > 0
    ensures d >= 1 ==> d * g >= g
    ensures d <= -1 ==> d * g <= -g
  {
    assert d * g == (d - 1) * g + g == (d + 1) * g - g;
  }

  /** Reducing modulo a multiple of `g` first does not change the remainder modulo `g`. */
  lemma ModOfMultiple(x: nat, m: nat, g: nat)
    requires m > 0 && g > 0 && m % g == 0
    ensures (x % m) % g == x % g
  {
    var y := x % m;
    assert x == (x / m) * m + y;
    assert m == (m / g) * g;
    assert x == ((x / m) * (m / g) + y / g) * g + y % g;
    QuotientUnique(x, g, (x / m) * (m / g) + y / g, y % g);
  }
}
