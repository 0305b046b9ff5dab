/** The arithmetic of the page-write loop: how a write of the address range
    [addr, end) is cut into transactions, none of which crosses a page
    boundary or carries more than MAX_I2C_DATA data bytes. */
module Chunking {

  /** Largest data payload of one page-write transaction: the Wire library's
      32-byte buffer less the two address bytes. */
  const MAX_I2C_DATA: nat := 30

  /** The offset of addr within its page, addr % pageSize, counted down one
      page at a time (PageOffsetIsMod). */
  function PageOffset(addr: nat, pageSize: int): (r: nat)
    requires pageSize > 0
    ensures r < pageSize && r <= addr
    decreases addr
  {
    if addr < pageSize then addr else PageOffset(addr - pageSize, pageSize)
  }

  lemma {:induction false} PageOffsetIsMod(addr: nat, pageSize: int)
    requires pageSize > 0
    ensures PageOffset(addr, pageSize) == addr % pageSize
    decreases addr
  {
    if addr >= pageSize {
      PageOffsetIsMod(addr - pageSize, pageSize);
      ModMinus(addr, pageSize);
    }
  }

  lemma ModMinus(x: int, m: int)
    requires m > 0
    ensures (x - m) % m == x % m
  {
    var q := x / m;
    assert x - m == m * (q - 1) + x % m;
    DivModUnique(x - m, m, q - 1, x % m);
  }

  /** y = m * k + r with 0 <= r < m determines y / m and y % m. */
  lemma DivModUnique(y: int, m: int, k: int, r: int)
    requires m > 0 && 0 <= r < m && y == m * k + r
    ensures y / m == k && y % m == r
  {
    var q := y / m;
    assert m * (k - q) == y % m - r;
    MulSign(m, k - q);
  }

  /** The first address past the page that holds `addr`. */
  function PageEnd(addr: nat, pageSize: int): (e: nat)
    requires pageSize > 0
    ensures addr < e <= addr + pageSize
  {
    addr - PageOffset(addr, pageSize) + pageSize
  }

  /** A page ends on a multiple of the page size. */
  lemma PageEndBoundary(addr: nat, pageSize: int)
    requires pageSize > 0
    ensures PageEnd(addr, pageSize) % pageSize == 0
    ensures PageEnd(addr, pageSize) == pageSize * (addr / pageSize + 1)
  {
    PageOffsetIsMod(addr, pageSize);
    var q := addr / pageSize;
    assert addr == pageSize * q + addr % pageSize;
    assert pageSize * (q + 1) == pageSize * q + pageSize;
    DivModUnique(pageSize * (q + 1), pageSize, q + 1, 0);
  }

  lemma MulSign(p: int, d: int)
    requires p > 0
    ensures d >= 1 ==> p * d >= p
    ensures d <= -1 ==> p * d <= -p
  {
  }

  /** PageEnd(addr) is the least page boundary above addr. */
  lemma PageEndLeast(addr: nat, m: nat, pageSize: int)
    requires pageSize > 0 && addr < m && m % pageSize == 0
    ensures PageEnd(addr, pageSize) <= m
  {
    PageEndBoundary(addr, pageSize);
    var q, r := addr / pageSize, m / pageSize;
    assert pageSize * (r - q) == m - (addr - addr % pageSize);
    MulSign(pageSize, r - q);
    assert pageSize * (r - q - 1) == m - pageSize * (q + 1);
    MulSign(pageSize, r - q - 1);
  }

  lemma PageEndMonotone(a: nat, b: nat, pageSize: int)
    requires pageSize > 0 && a <= b
    ensures PageEnd(a, pageSize) <= PageEnd(b, pageSize)
  {
    PageEndBoundary(b, pageSize);
    PageEndLeast(a, PageEnd(b, pageSize), pageSize);
  }

  /** Every address of a page has the same page end. */
  lemma SamePage(addr: nat, x: nat, pageSize: int)
    requires pageSize > 0 && addr <= x < PageEnd(addr, pageSize)
    ensures PageEnd(x, pageSize) == PageEnd(addr, pageSize)
  {
    PageEndMonotone(addr, x, pageSize);
    PageEndBoundary(addr, pageSize);
    PageEndLeast(x, PageEnd(addr, pageSize), pageSize);
  }

  /** A chunk of n bytes may start at addr: it is not empty, stays within the
      transaction cap, and ends no later than the end of addr's page. */
  predicate ChunkFits(addr: nat, n: nat, pageSize: int)
    requires pageSize > 0
  {
    1 <= n <= MAX_I2C_DATA && addr + n <= PageEnd(addr, pageSize)
  }

  /** The length of the next chunk: the rest of the page, clamped to the rest
      of the range and then to MAX_I2C_DATA. It is the longest chunk that fits
      at addr without passing end. */
  function ChunkLength(addr: nat, end: nat, pageSize: int): (n: nat)
    requires pageSize > 0 && addr < end
    ensures ChunkFits(addr, n, pageSize) && addr + n <= end
  {
    var toPageEnd := pageSize - PageOffset(addr, pageSize);
    var n := if addr + toPageEnd > end then end - addr else toPageEnd;
    if n > MAX_I2C_DATA then MAX_I2C_DATA else n
  }

  /** No longer chunk fits at addr without passing end. */
  lemma ChunkLengthLongest(addr: nat, end: nat, pageSize: int, m: nat)
    requires pageSize > 0 && addr < end
    requires ChunkFits(addr, m, pageSize) && addr + m <= end
    ensures m <= ChunkLength(addr, end, pageSize)
  {
  }

  function Sum(cs: seq<nat>): nat
  {
    if cs == [] then 0 else cs[0] + Sum(cs[1..])
  }

  /** cs cuts the range that starts at addr into consecutive chunks, each of
      which fits where it starts. */
  predicate Covers(addr: nat, cs: seq<nat>, pageSize: int)
    requires pageSize > 0
    decreases |cs|
  {
    cs == [] || (ChunkFits(addr, cs[0], pageSize) && Covers(addr + cs[0], cs[1..], pageSize))
  }

  /** The chunk lengths the page-write loop uses for [addr, end), in order. */
  function Chunks(addr: nat, end: nat, pageSize: int): (cs: seq<nat>)
    requires addr < end ==> pageSize > 0
    decreases if addr < end then end - addr else 0
  {
    if addr >= end then []
    else
      var n := ChunkLength(addr, end, pageSize);
      [n] + Chunks(addr + n, end, pageSize)
  }

  /** The chunks add up to the length of the range. */
  lemma {:induction false} ChunksSum(addr: nat, end: nat, pageSize: int)
    requires addr < end ==> pageSize > 0
    ensures addr + Sum(Chunks(addr, end, pageSize)) == if addr < end then end else addr
    decreases if addr < end then end - addr else 0
  {
    if addr < end {
      var n := ChunkLength(addr, end, pageSize);
      ChunksSum(addr + n, end, pageSize);
      assert Chunks(addr, end, pageSize)[1..] == Chunks(addr + n, end, pageSize);
    }
  }

  /** The page-write loop's chunks cut [addr, end) into chunks that fit. */
  lemma {:induction false} ChunksCover(addr: nat, end: nat, pageSize: int)
    requires pageSize > 0
    ensures Covers(addr, Chunks(addr, end, pageSize), pageSize)
    decreases if addr < end then end - addr else 0
  {
    if addr < end {
      var n := ChunkLength(addr, end, pageSize);
      ChunksCover(addr + n, end, pageSize);
      assert Chunks(addr, end, pageSize)[1..] == Chunks(addr + n, end, pageSize);
    }
  }

  /** No chunk is empty. */
  lemma {:induction false} ChunksPositive(addr: nat, end: nat, pageSize: int)
    requires addr < end ==> pageSize > 0
    ensures forall k :: 0 <= k < |Chunks(addr, end, pageSize)| ==> Chunks(addr, end, pageSize)[k] > 0
    decreases if addr < end then end - addr else 0
  {
    if addr < end {
      var n := ChunkLength(addr, end, pageSize);
      ChunksPositive(addr + n, end, pageSize);
      assert Chunks(addr, end, pageSize) == [n] + Chunks(addr + n, end, pageSize);
    }
  }

  lemma SumPrefixStep(cs: seq<nat>, j: nat)
    requires 0 < j <= |cs|
    ensures Sum(cs[..j]) == cs[0] + Sum(cs[1..][..j - 1])
  {
    assert cs[..j][1..] == cs[1..][..j - 1];
  }

  /** The chunks before chunk j and chunk j itself end by the end of the range. */
  lemma {:induction false} SumPrefixBound(cs: seq<nat>, j: nat)
    requires j < |cs|
    ensures Sum(cs[..j]) + cs[j] <= Sum(cs)
    decreases j
  {
    if j > 0 {
      SumPrefixBound(cs[1..], j - 1);
      SumPrefixStep(cs, j);
    } else {
      assert cs[..0] == [];
    }
  }

  /** Chunk j starts where the chunks before it end, and fits there. */
  lemma {:induction false} CoversAt(addr: nat, cs: seq<nat>, pageSize: int, j: nat)
    requires pageSize > 0 && Covers(addr, cs, pageSize) && j < |cs|
    ensures ChunkFits(addr + Sum(cs[..j]), cs[j], pageSize)
    decreases j
  {
    if j > 0 {
      CoversAt(addr + cs[0], cs[1..], pageSize, j - 1);
      SumPrefixStep(cs, j);
    } else {
      assert cs[..0] == [];
    }
  }

  /** Starting later never needs more chunks. */
  lemma {:induction false} ChunkCountMonotone(a: nat, b: nat, end: nat, pageSize: int)
    requires pageSize > 0 && a <= b
    ensures |Chunks(b, end, pageSize)| <= |Chunks(a, end, pageSize)|
    decreases if a < end then end - a else 0
  {
    if b < end {
      var na := ChunkLength(a, end, pageSize);
      var nb := ChunkLength(b, end, pageSize);
      if a + na > b {
        var m := a + na - b;
        PageEndMonotone(a, b, pageSize);
        assert ChunkFits(b, m, pageSize);
        ChunkLengthLongest(b, end, pageSize, m);
      }
      assert a + na <= b + nb;
      ChunkCountMonotone(a + na, b + nb, end, pageSize);
    }
  }

  /** A non-empty range starts with a chunk of ChunkLength bytes. */
  lemma ChunksStep(addr: nat, end: nat, pageSize: int)
    requires pageSize > 0 && addr < end
    ensures |Chunks(addr, end, pageSize)| == 1 + |Chunks(addr + ChunkLength(addr, end, pageSize), end, pageSize)|
  {
  }

  /** No way of cutting a range into fitting chunks uses fewer chunks than
      the page-write loop does. */
  lemma {:induction false} ChunksMinimal(addr: nat, end: nat, cs: seq<nat>, pageSize: int)
    requires pageSize > 0 && Covers(addr, cs, pageSize) && addr + Sum(cs) == end
    ensures |Chunks(addr, end, pageSize)| <= |cs|
    decreases |cs|
  {
    if cs != [] {
      ChunksMinimal(addr + cs[0], end, cs[1..], pageSize);
      FirstChunkLongest(addr, end, cs[0], |cs[1..]|, pageSize);
    }
  }

  /** If some fitting first chunk leaves a rest that needs at most k chunks,
      the whole range needs at most k + 1. */
  lemma FirstChunkLongest(addr: nat, end: nat, c: nat, k: nat, pageSize: int)
    requires pageSize > 0 && ChunkFits(addr, c, pageSize) && addr + c <= end
    requires |Chunks(addr + c, end, pageSize)| <= k
    ensures |Chunks(addr, end, pageSize)| <= k + 1
  {
    var n := ChunkLength(addr, end, pageSize);
    ChunkLengthLongest(addr, end, pageSize, c);
    ChunkCountMonotone(addr + c, addr + n, end, pageSize);
    ChunksStep(addr, end, pageSize);
  }

  /** A range inside one page is cut into ceil(length / MAX_I2C_DATA) chunks. */
  lemma {:induction false} OnePageChunkCount(addr: nat, end: nat, pageSize: int)
    requires pageSize > 0 && addr <= end <= PageEnd(addr, pageSize)
    ensures |Chunks(addr, end, pageSize)| == (end - addr + MAX_I2C_DATA - 1) / MAX_I2C_DATA
    decreases end - addr
  {
    if addr < end {
      var n := ChunkLength(addr, end, pageSize);
      assert n == if end - addr < MAX_I2C_DATA then end - addr else MAX_I2C_DATA;
      if addr + n < end {
        SamePage(addr, addr + n, pageSize);
      }
      OnePageChunkCount(addr + n, end, pageSize);
    }
  }

  /** Writing one whole page from a page boundary takes one chunk when the page
      fits in a transaction and ceil(pageSize / MAX_I2C_DATA) chunks otherwise. */
  lemma WholePageChunkCount(addr: nat, pageSize: int)
    requires pageSize > 0 && addr % pageSize == 0
    ensures pageSize <= MAX_I2C_DATA ==> |Chunks(addr, addr + pageSize, pageSize)| == 1
    ensures |Chunks(addr, addr + pageSize, pageSize)| == (pageSize + MAX_I2C_DATA - 1) / MAX_I2C_DATA
  {
    PageOffsetIsMod(addr, pageSize);
    OnePageChunkCount(addr, addr + pageSize, pageSize);
  }

  /** 64-byte pages, 10 bytes from address 60: the rest of the first page
      (60..63), then 64..69. */
  lemma StraddlingWriteChunks()
    ensures Chunks(60, 70, 64) == [4, 6]
  {
    assert ChunkLength(60, 70, 64) == 4;
    assert ChunkLength(64, 70, 64) == 6;
    assert Chunks(70, 70, 64) == [];
  }

  // On a platform whose `unsigned int` has 16 bits the loop computes
  // `addr + n` and `addr + len` modulo 0x10000.

  const UINT16_MODULUS: nat := 0x1_0000

  /** The chunk length as the loop computes it with 16-bit unsigned sums. */
  function ChunkLength16(addr: nat, end: nat, pageSize: int): (n: nat)
    requires 0 < pageSize && addr < end < UINT16_MODULUS
    ensures 1 <= n <= MAX_I2C_DATA
  {
    var toPageEnd := pageSize - PageOffset(addr, pageSize);
    var n := if (addr + toPageEnd) % UINT16_MODULUS > end then end - addr else toPageEnd;
    if n > MAX_I2C_DATA then MAX_I2C_DATA else n
  }

  /** In the last page of a 64 KiB chip the sum `addr + n` wraps to 0, the
      clamp to the end of the range is skipped, and the chunk runs past it. */
  lemma ChunkOverrunOn16Bit()
    ensures ChunkLength16(0xFFFA, 0xFFFD, 64) == 6
    ensures ChunkLength(0xFFFA, 0xFFFD, 64) == 3
  {
    PageOffsetIsMod(0xFFFA, 64);
  }

  /** The end of a page write as computed with a 16-bit unsigned sum. */
  function PageWriteEnd16(addr: nat, len: nat): (end: nat)
    requires addr < UINT16_MODULUS
    ensures end < UINT16_MODULUS
    ensures end == addr + len || addr + len >= UINT16_MODULUS
  {
    (addr + len) % UINT16_MODULUS
  }

  /** A write that ends exactly at the top of a 64 KiB chip gets end == 0 and
      makes no chunk at all, where one chunk was meant. */
  lemma LastByteSkippedOn16Bit()
    ensures PageWriteEnd16(0xFFFF, 1) == 0
    ensures Chunks(0xFFFF, PageWriteEnd16(0xFFFF, 1), 64) == []
    ensures Chunks(0xFFFF, 0xFFFF + 1, 64) == [1]
  {
    assert ChunkLength(0xFFFF, 0x1_0000, 64) == 1;
    assert Chunks(0x1_0000, 0x1_0000, 64) == [];
  }
}
