/**
  DMA addresses of GPU pages for one peer device: counting the contiguous chunks of a mapping,
  and handing out the address of a piece of GPU memory after checking that the device may go
  through it linearly.
*/
module Dma {
  import opened Units

  /** The DMA address of each GPU page of a buffer. The driver takes a zero address for a bug. */
  predicate Mapping(addrs: seq<int>) {
    |addrs| > 0 && forall i | 0 <= i < |addrs| :: addrs[i] > 0
  }

  /** GPU page `i + 1` follows GPU page `i` in DMA space. */
  predicate Follows(addrs: seq<int>, i: nat)
    requires i + 1 < |addrs|
  {
    addrs[i] + GPU_PAGE == addrs[i + 1]
  }

  /** The number of places before page `n` where the next page does not follow. */
  function Gaps(addrs: seq<int>, n: nat): nat
    requires n < |addrs|
  {
    if n == 0 then 0 else Gaps(addrs, n - 1) + if Follows(addrs, n - 1) then 0 else 1
  }

  /** The number of contiguous chunks. */
  method CountChunks(addrs: seq<int>) returns (chunks: nat)
    requires Mapping(addrs)
    ensures chunks == 1 + Gaps(addrs, |addrs| - 1)
    ensures chunks == 1 <==> forall i | 0 <= i < |addrs| - 1 :: Follows(addrs, i)
  {
    chunks := 1;
    for i := 0 to |addrs| - 1
      invariant chunks == 1 + Gaps(addrs, i)
    {
      if addrs[i] + GPU_PAGE != addrs[i + 1] {
        chunks := chunks + 1;
      }
    }
    NoGaps(addrs, |addrs| - 1);
  }

  lemma {:induction false} NoGaps(addrs: seq<int>, n: nat)
    requires n < |addrs|
    ensures Gaps(addrs, n) == 0 <==> forall i | 0 <= i < n :: Follows(addrs, i)
  {
    if n > 0 { NoGaps(addrs, n - 1); }
  }

  /** The DMA address of one byte of the buffer, translated on its own. */
  function Own(addrs: seq<int>, b: nat): int
    requires b / GPU_PAGE < |addrs|
  {
    addrs[b / GPU_PAGE] + b % GPU_PAGE
  }

  /** `len` bytes from byte `b` on lie in the buffer. */
  predicate Inside(addrs: seq<int>, b: nat, len: int) {
    len >= 0 && b + len <= GPU_PAGE * |addrs|
  }

  /** A device going linearly from the address of byte `b` meets the bytes of the buffer. */
  ghost predicate Linear(addrs: seq<int>, b: nat, len: int)
    requires len > 0 && Inside(addrs, b, len)
  {
    forall c: nat | b <= c < b + len :: Own(addrs, c) == Own(addrs, b) + (c - b)
  }

  /** The addresses that the check compares: GPU page `i + k` against `k` whole pages after the
      start. */
  ghost predicate Agrees(addrs: seq<int>, i: nat, off: nat, len: int) {
    forall k: nat | k > 0 && GPU_PAGE * k < len :: i + k < |addrs| && addrs[i] + off + GPU_PAGE * k == addrs[i + k]
  }

  /** The pieces that are handed out: longer ones only if the compared addresses agree. */
  ghost predicate Granted(addrs: seq<int>, chunks: nat, i: nat, off: nat, len: int) {
    len <= GPU_PAGE || chunks <= 1 || Agrees(addrs, i, off, len)
  }

  /** The address of `len` bytes from byte `off` of GPU page `i` on, if the piece is handed out. */
  method GetDma(addrs: seq<int>, chunks: nat, i: nat, off: nat, len: int) returns (r: Option<int>)
    requires Mapping(addrs) && i < |addrs| && off <= GPU_PAGE - PAGE
    ensures r == if Granted(addrs, chunks, i, off, len) then Some(addrs[i] + off) else None
  {
    var start := addrs[i] + off;
    if len > GPU_PAGE && chunks > 1 {
      var left, at, k := len, start, i;
      while left > 0
        invariant k >= i && left == len - GPU_PAGE * (k - i) && at == start + GPU_PAGE * (k - i)
        invariant left > 0 && k < |addrs|
        invariant forall j: nat | 0 < j <= k - i :: i + j < |addrs| && addrs[i] + off + GPU_PAGE * j == addrs[i + j]
      {
        if left > GPU_PAGE {
          left, at, k := left - GPU_PAGE, at + GPU_PAGE, k + 1;
          if k >= |addrs| {
            assert GPU_PAGE * (k - i) < len;
            return None;
          }
          if at != addrs[k] {
            assert GPU_PAGE * (k - i) < len;
            return None;
          }
        } else {
          break;
        }
      }
    }
    return Some(start);
  }

  // ------------------------------------------------- what the check is worth

  /** The chunk count of a mapping. */
  function Chunks(addrs: seq<int>): nat
    requires Mapping(addrs)
  {
    1 + Gaps(addrs, |addrs| - 1)
  }

  lemma {:induction false} Chain(addrs: seq<int>, i: nat, p: nat)
    requires i <= p < |addrs| && forall j | i <= j < p :: Follows(addrs, j)
    ensures addrs[p] == addrs[i] + GPU_PAGE * (p - i)
    decreases p
  {
    if i < p {
      Chain(addrs, i, p - 1);
      assert Follows(addrs, p - 1);
    }
  }

  /** The last GPU page that a piece touches. */
  function LastPage(b: nat, len: int): nat
    requires len > 0
  {
    (b + len - 1) / GPU_PAGE
  }

  /** Going linearly is right exactly when every GPU page touched follows the one before it. */
  lemma LinearExactly(addrs: seq<int>, b: nat, len: int)
    requires len > 0 && Inside(addrs, b, len)
    ensures LastPage(b, len) < |addrs|
    ensures Linear(addrs, b, len) <==> forall j | b / GPU_PAGE <= j < LastPage(b, len) :: Follows(addrs, j)
  {
    if Linear(addrs, b, len) {
      forall j | b / GPU_PAGE <= j < LastPage(b, len)
        ensures Follows(addrs, j)
      {
        var c := GPU_PAGE * (j + 1);
        assert Own(addrs, c) == Own(addrs, b) + (c - b);
        assert Own(addrs, c - 1) == Own(addrs, b) + (c - 1 - b);
      }
    }
    if forall j | b / GPU_PAGE <= j < LastPage(b, len) :: Follows(addrs, j) {
      forall c: nat | b <= c < b + len
        ensures Own(addrs, c) == Own(addrs, b) + (c - b)
      {
        Chain(addrs, b / GPU_PAGE, c / GPU_PAGE);
      }
    }
  }

  /** The address handed out is that of the first byte, and the device meets the right bytes from
      there exactly when the piece starts a GPU page, or stays in one, or the mapping is one
      chunk, or the piece is at most 64 KiB and the next page happens to follow. */
  lemma GrantExactly(addrs: seq<int>, i: nat, off: nat, len: int)
    requires Mapping(addrs) && i < |addrs| && off <= GPU_PAGE - PAGE
    requires len > 0 && Inside(addrs, GPU_PAGE * i + off, len)
    requires Granted(addrs, Chunks(addrs), i, off, len)
    ensures (GPU_PAGE * i + off) / GPU_PAGE == i && Own(addrs, GPU_PAGE * i + off) == addrs[i] + off
    ensures Linear(addrs, GPU_PAGE * i + off, len) <==>
              || off == 0 || off + len <= GPU_PAGE || Chunks(addrs) == 1
              || (len <= GPU_PAGE && i + 1 < |addrs| && Follows(addrs, i))
  {
    var b := GPU_PAGE * i + off;
    LinearExactly(addrs, b, len);
    NoGaps(addrs, |addrs| - 1);
    if off == 0 && Chunks(addrs) > 1 {
      forall j | i <= j < LastPage(b, len)
        ensures Follows(addrs, j)
      {
        AgreesFollows(addrs, i, len, j);
      }
    }
    if off > 0 && off + len > GPU_PAGE && Chunks(addrs) > 1 {
      assert i + 1 <= LastPage(b, len) && (len <= GPU_PAGE ==> i + 1 == LastPage(b, len));
      if len > GPU_PAGE {
        assert addrs[i] + off + GPU_PAGE * 1 == addrs[i + 1];
        assert !Follows(addrs, i);
      }
    }
  }

  lemma AgreesFollows(addrs: seq<int>, i: nat, len: int, j: nat)
    requires i <= j < |addrs| - 1 && GPU_PAGE * (j + 1 - i) < len && Agrees(addrs, i, 0, len)
    ensures Follows(addrs, j)
  {
    assert addrs[i] + 0 + GPU_PAGE * (j + 1 - i) == addrs[i + (j + 1 - i)];
    if j > i { assert addrs[i] + 0 + GPU_PAGE * (j - i) == addrs[i + (j - i)]; }
  }

  /** A piece that starts a GPU page is refused only when going linearly would be wrong. */
  lemma RefusalJustified(addrs: seq<int>, i: nat, len: int)
    requires Mapping(addrs) && i < |addrs| && len > 0 && Inside(addrs, GPU_PAGE * i, len)
    requires !Granted(addrs, Chunks(addrs), i, 0, len)
    ensures !Linear(addrs, GPU_PAGE * i, len)
  {
    var k: nat :| k > 0 && GPU_PAGE * k < len && !(i + k < |addrs| && addrs[i] + 0 + GPU_PAGE * k == addrs[i + k]);
    LinearExactly(addrs, GPU_PAGE * i, len);
    if Linear(addrs, GPU_PAGE * i, len) { Chain(addrs, i, i + k); }
  }

  /** A contiguous piece is handed out exactly when it starts a GPU page, is at most 64 KiB long, or
      the mapping is one chunk. */
  lemma RefusalExactly(addrs: seq<int>, i: nat, off: nat, len: int)
    requires Mapping(addrs) && i < |addrs| && off <= GPU_PAGE - PAGE
    requires len > 0 && Inside(addrs, GPU_PAGE * i + off, len) && Linear(addrs, GPU_PAGE * i + off, len)
    ensures Granted(addrs, Chunks(addrs), i, off, len) <==> off == 0 || len <= GPU_PAGE || Chunks(addrs) == 1
  {
    if Granted(addrs, Chunks(addrs), i, off, len) {
      GrantExactly(addrs, i, off, len);
    } else if off == 0 {
      RefusalJustified(addrs, i, len);
    }
  }

  /** A piece of 8 KiB that crosses into a GPU page placed elsewhere is handed out all the same. */
  lemma CrossingUnchecked()
    ensures var addrs := [0x1_0000, 0x5_0000];
            && Mapping(addrs) && Inside(addrs, 61440, 8192)
            && Granted(addrs, Chunks(addrs), 0, 61440, 8192) && !Linear(addrs, 61440, 8192)
  {
    LinearExactly([0x1_0000, 0x5_0000], 61440, 8192);
    assert !Follows([0x1_0000, 0x5_0000], 0);
  }

  /** A piece of 68 KiB that lies in one contiguous chunk is refused when it does not start a GPU
      page and the mapping has another chunk. */
  lemma GoodRefused()
    ensures var addrs := [0x1_0000, 0x2_0000, 0x5_0000];
            && Mapping(addrs) && Inside(addrs, 4096, 69632)
            && Linear(addrs, 4096, 69632) && !Granted(addrs, Chunks(addrs), 0, 4096, 69632)
  {
    var addrs := [0x1_0000, 0x2_0000, 0x5_0000];
    LinearExactly(addrs, 4096, 69632);
    NoGaps(addrs, 2);
    assert !Follows(addrs, 1) && Follows(addrs, 0);
    assert addrs[0] + 4096 + GPU_PAGE * 1 != addrs[0 + 1];
  }
}
