/** Page-range zeroing (`os_zero`).

    `[addr, addr + length)` is split into a leading fragment up to the first
    page boundary, a middle block of whole pages, and a trailing fragment.
    The fragments are cleared byte by byte; the middle block is unmapped and
    mapped again at the same address, so that the OS hands it back
    zero-filled. Memory is a byte array indexed by address; the page size
    (`os_vm_page_size`) is a parameter. */
module PageZero {
  import opened Machine

  /** `os_round_up_to_page`: the first page boundary at or above `a`. */
  function RoundUpToPage(pageSize: nat, a: nat): (r: nat)
    requires pageSize > 0
    ensures r % pageSize == 0 && a <= r < a + pageSize
  {
    var q := (a + pageSize - 1) / pageSize;
    MultipleIsAligned(q, pageSize);
    q * pageSize
  }

  /** `os_trunc_size_to_page`: the largest whole number of pages within `n`. */
  function TruncToPage(pageSize: nat, n: nat): (r: nat)
    requires pageSize > 0
    ensures r % pageSize == 0 && r <= n < r + pageSize
  {
    var q := n / pageSize;
    MultipleIsAligned(q, pageSize);
    q * pageSize
  }

  lemma MultipleIsAligned(q: nat, pageSize: nat)
    requires pageSize > 0
    ensures (q * pageSize) % pageSize == 0
  {
    var d, m := (q * pageSize) / pageSize, (q * pageSize) % pageSize;
    assert (q - d) * pageSize == m;
    if q - d >= 1 {
      MulAtLeast(q - d, pageSize);
    } else if q - d <= -1 {
      MulAtLeast(d - q, pageSize);
    }
  }

  lemma MulAtLeast(k: int, pageSize: nat)
    requires k >= 1
    ensures k * pageSize >= pageSize
  {
    assert k * pageSize == (k - 1) * pageSize + pageSize;
  }

  /** Two distinct page boundaries are at least a page apart. */
  lemma AlignedGap(x: int, y: int, pageSize: nat)
    requires pageSize > 0 && x % pageSize == 0 && y % pageSize == 0 && x < y
    ensures x + pageSize <= y
  {
    var qx, qy := x / pageSize, y / pageSize;
    assert y - x == (qy - qx) * pageSize;
    if qy - qx >= 1 {
      MulAtLeast(qy - qx, pageSize);
    } else if qx - qy >= 1 {
      MulAtLeast(qx - qy, pageSize);
    }
  }

  /** `x % WORD_MODULUS` for an `x` at most one modulus away from the word range. */
  lemma WrapWord(x: int)
    requires -WORD_MODULUS <= x < WORD_MODULUS
    ensures x % WORD_MODULUS == if x < 0 then x + WORD_MODULUS else x
  {
  }

  /** How `os_zero` splits the range: leading fragment `[addr, blockStart)`,
      middle block `[blockStart, blockStart + blockSize)`, trailing fragment
      `[blockStart + blockSize, addr + length)`. */
  datatype ZeroPlan = ZeroPlan(blockStart: nat, blockSize: nat)

  /** The split of `[addr, addr + length)`. When the range ends before the
      first page boundary above `addr`, the block start is clamped to the end
      of the range, so that the whole range is the leading fragment. */
  function Plan(pageSize: nat, addr: nat, length: nat): (p: ZeroPlan)
    requires pageSize > 0
    ensures addr <= p.blockStart <= p.blockStart + p.blockSize <= addr + length
    ensures p.blockSize % pageSize == 0
    ensures p.blockSize > 0 ==> p.blockStart == RoundUpToPage(pageSize, addr)
    ensures p.blockStart - addr < pageSize
    ensures addr + length - (p.blockStart + p.blockSize) < pageSize
  {
    var up := RoundUpToPage(pageSize, addr);
    var blockStart := if up <= addr + length then up else addr + length;
    ZeroPlan(blockStart, TruncToPage(pageSize, addr + length - blockStart))
  }

  /** The middle block is made of whole pages: it starts and ends on a page
      boundary whenever it is not empty. */
  lemma PlanBlockAligned(pageSize: nat, addr: nat, length: nat)
    requires pageSize > 0
    ensures var p := Plan(pageSize, addr, length);
            p.blockSize > 0 ==>
              p.blockStart % pageSize == 0 && (p.blockStart + p.blockSize) % pageSize == 0
  {
    var p := Plan(pageSize, addr, length);
    if p.blockSize > 0 {
      var a, b := p.blockStart / pageSize, p.blockSize / pageSize;
      assert p.blockStart == a * pageSize;
      assert p.blockSize == b * pageSize;
      assert p.blockStart + p.blockSize == (a + b) * pageSize;
      MultipleIsAligned(a + b, pageSize);
    }
  }

  /** The middle block is the largest one: every whole page inside
      `[addr, addr + length)` lies inside it. */
  lemma PlanBlockMaximal(pageSize: nat, addr: nat, length: nat, k: nat)
    requires pageSize > 0
    requires addr <= k * pageSize && k * pageSize + pageSize <= addr + length
    ensures var p := Plan(pageSize, addr, length);
            p.blockStart <= k * pageSize && k * pageSize + pageSize <= p.blockStart + p.blockSize
  {
    var p := Plan(pageSize, addr, length);
    var x, up := k * pageSize, RoundUpToPage(pageSize, addr);
    MultipleIsAligned(k, pageSize);
    if x < up {
      AlignedGap(x, up, pageSize);
    }
    assert p.blockStart == up && p.blockSize > 0;
    PlanBlockAligned(pageSize, addr, length);
    MultipleIsAligned(k + 1, pageSize);
    assert (k + 1) * pageSize == x + pageSize;
    if p.blockStart + p.blockSize < x + pageSize {
      AlignedGap(p.blockStart + p.blockSize, x + pageSize, pageSize);
    }
  }

  /** The values of `os_zero`'s local variables as the code computes them:
      `blockStart` at line 59, `length` after the unsigned subtraction at
      line 61, taken modulo 2^64 as on a 64-bit target, and `blockSize` at
      line 62. The rounding at line 59 is not reduced: `blockStart` is left
      unbounded for an `addr` in the last page of the address space. */
  datatype SourceSteps = SourceSteps(blockStart: nat, length: nat, blockSize: nat)

  function SourcePlan(pageSize: nat, addr: nat, length: nat): (s: SourceSteps)
    requires 0 < pageSize < WORD_MODULUS && length < WORD_MODULUS
    ensures s.length < WORD_MODULUS
  {
    var blockStart := RoundUpToPage(pageSize, addr);
    var len := (length - (blockStart - addr)) % WORD_MODULUS;
    SourceSteps(blockStart, len, TruncToPage(pageSize, len))
  }

  /** When the range reaches the first page boundary above `addr`, the code
      as written splits it exactly as `Plan` does, and the trailing fragment
      it clears ends at `addr + length`. */
  lemma SourcePlanAgrees(pageSize: nat, addr: nat, length: nat)
    requires 0 < pageSize < WORD_MODULUS && length < WORD_MODULUS
    requires addr + length >= RoundUpToPage(pageSize, addr)
    ensures var s, p := SourcePlan(pageSize, addr, length), Plan(pageSize, addr, length);
            s.blockStart == p.blockStart && s.blockSize == p.blockSize &&
            s.blockStart + s.length == addr + length
  {
    WrapWord(length - (RoundUpToPage(pageSize, addr) - addr));
  }

  /** Otherwise the subtraction at line 61 wraps around, and the leading
      fragment the code clears at line 65 runs past the end of the range. */
  lemma SourcePlanOverruns(pageSize: nat, addr: nat, length: nat)
    requires 0 < pageSize < WORD_MODULUS && length < WORD_MODULUS
    requires addr + length < RoundUpToPage(pageSize, addr)
    ensures var s := SourcePlan(pageSize, addr, length);
            s.blockStart > addr + length &&
            s.length == WORD_MODULUS - (s.blockStart - (addr + length))
  {
    WrapWord(length - (RoundUpToPage(pageSize, addr) - addr));
  }

  /** In that case, with a page size dividing 2^64, the block size is
      2^64 minus a page, so the trailing fragment cleared at line 67 starts,
      after address wrap-around, at the page boundary below `addr` and ends
      at `addr + length`: the code also clears bytes before the range. */
  lemma SourceTrailingWraps(pageSize: nat, addr: nat, length: nat)
    requires 0 < pageSize < WORD_MODULUS && WORD_MODULUS % pageSize == 0
    requires addr < WORD_MODULUS && length < WORD_MODULUS
    requires addr + length < RoundUpToPage(pageSize, addr)
    ensures var s := SourcePlan(pageSize, addr, length);
            s.blockSize == WORD_MODULUS - pageSize && s.blockSize < s.length &&
            (s.blockStart + s.blockSize) % WORD_MODULUS == s.blockStart - pageSize &&
            s.blockStart - pageSize < addr &&
            s.blockStart - pageSize + (s.length - s.blockSize) == addr + length
  {
    var s := SourcePlan(pageSize, addr, length);
    var up, m := s.blockStart, WORD_MODULUS;
    SourcePlanOverruns(pageSize, addr, length);
    var q := m / pageSize;
    assert m == q * pageSize;
    assert m - pageSize == (q - 1) * pageSize;
    MultipleIsAligned(q - 1, pageSize);
    var r := s.blockSize;
    if r < m - pageSize {
      AlignedGap(r, m - pageSize, pageSize);
    } else if r > m - pageSize {
      AlignedGap(m - pageSize, r, pageSize);
    }
    AlignedGap(0, up, pageSize);
    assert up + s.blockSize == (up - pageSize) + m;
  }

  /** One byte at address 1 with 4096-byte pages: line 65 clears `[1, 4096)`;
      line 67 clears `[0, 2)`, at address NULL after wrap-around; and the
      remap covers a block of 2^64 - 4096 bytes, if it is reached at all. */
  lemma SourceZeroOneByte()
    ensures SourcePlan(4096, 1, 1) == SourceSteps(4096, WORD_MODULUS - 4094, WORD_MODULUS - 4096)
    ensures var s := SourcePlan(4096, 1, 1);
            (s.blockStart + s.blockSize) % WORD_MODULUS == 0 && s.length - s.blockSize == 2
    ensures Plan(4096, 1, 1) == ZeroPlan(2, 0)
  {
    assert (WORD_MODULUS - 4094) / 4096 * 4096 == WORD_MODULUS - 4096;
  }

  /** `s` with the bytes at addresses `[lo, hi)` cleared. */
  function ZeroRange(s: seq<bv8>, lo: int, hi: int): (r: seq<bv8>)
    ensures |r| == |s|
  {
    seq(|s|, i requires 0 <= i < |s| => if lo <= i < hi then 0 else s[i])
  }

  /** Clearing adjacent ranges one after the other clears their union,
      in either order. */
  lemma ZeroRangeJoin(s: seq<bv8>, a: int, b: int, c: int)
    requires a <= b <= c
    ensures ZeroRange(ZeroRange(s, a, b), b, c) == ZeroRange(s, a, c)
    ensures ZeroRange(ZeroRange(s, b, c), a, b) == ZeroRange(s, a, c)
  {
    var x, y, z := ZeroRange(ZeroRange(s, a, b), b, c), ZeroRange(ZeroRange(s, b, c), a, b), ZeroRange(s, a, c);
    assert forall i :: 0 <= i < |s| ==> x[i] == z[i] && y[i] == z[i];
  }

  /** `bzero(from, n)`. */
  method Bzero(mem: array<bv8>, from: nat, n: nat)
    requires from + n <= mem.Length
    modifies mem
    ensures mem[..] == ZeroRange(old(mem[..]), from, from + n)
  {
    var i := from;
    while i < from + n
      invariant from <= i <= from + n
      invariant mem[..] == ZeroRange(old(mem[..]), from, i)
    {
      mem[i] := 0;
      i := i + 1;
    }
  }

  /** `os_invalidate(start, size)` then `os_validate(NOT_MOVABLE, start, size)`.
      `placed` is the address the OS hands back (0 for NULL); a mapping
      granted at the requested address reads as zero. */
  method Remap(mem: array<bv8>, start: nat, size: nat, placed: nat) returns (got: nat)
    requires start + size <= mem.Length
    modifies mem
    ensures got == placed
    ensures mem[..] == if placed == start && placed != 0
                       then ZeroRange(old(mem[..]), start, start + size)
                       else old(mem[..])
  {
    got := placed;
    if placed == start && placed != 0 {
      Bzero(mem, start, size);
    }
  }

  /** What `os_zero` ends in: every byte cleared, or the fatal
      "block moved" report from `lose`. */
  datatype ZeroOutcome = Zeroed | BlockMoved(requested: nat, got: nat)

  /** `os_zero(addr, length)`, where the remap of the middle block returns
      `placed`. */
  method OsZero(mem: array<bv8>, pageSize: nat, addr: nat, length: nat, placed: nat)
    returns (outcome: ZeroOutcome)
    requires pageSize > 0 && addr + length <= mem.Length
    modifies mem
    ensures var p := Plan(pageSize, addr, length);
            outcome == if p.blockSize != 0 && (placed == 0 || placed != p.blockStart)
                       then BlockMoved(p.blockStart, placed)
                       else Zeroed
    ensures outcome.Zeroed? ==> mem[..] == ZeroRange(old(mem[..]), addr, addr + length)
    ensures outcome.Zeroed? ==> forall i :: addr <= i < addr + length ==> mem[i] == 0
    ensures forall i :: 0 <= i < mem.Length && !(addr <= i < addr + length) ==> mem[i] == old(mem[i])
    ensures var p := Plan(pageSize, addr, length);
            outcome.BlockMoved? ==>
              mem[..] == ZeroRange(ZeroRange(old(mem[..]), addr, p.blockStart),
                                   p.blockStart + p.blockSize, addr + length)
  {
    ghost var p := Plan(pageSize, addr, length);
    ghost var before := mem[..];
    var blockStart := RoundUpToPage(pageSize, addr);
    if blockStart > addr + length {
      blockStart := addr + length;
    }
    var len := length - (blockStart - addr);
    var blockSize := TruncToPage(pageSize, len);
    assert blockStart == p.blockStart && blockSize == p.blockSize;

    if blockStart > addr {
      Bzero(mem, addr, blockStart - addr);
    }
    assert mem[..] == ZeroRange(before, addr, blockStart);
    if blockSize < len {
      Bzero(mem, blockStart + blockSize, len - blockSize);
    }
    assert mem[..] == ZeroRange(ZeroRange(before, addr, blockStart), blockStart + blockSize, addr + length);
    ghost var fragments := mem[..];

    outcome := Zeroed;
    if blockSize != 0 {
      var got := Remap(mem, blockStart, blockSize, placed);
      if got == 0 || got != blockStart {
        outcome := BlockMoved(blockStart, got);
      }
    }
    if outcome.Zeroed? {
      if blockSize != 0 {
        assert mem[..] == ZeroRange(fragments, blockStart, blockStart + blockSize);
      }
      ZeroRangeJoin(before, addr, blockStart, blockStart + blockSize);
      ZeroRangeJoin(ZeroRange(before, addr, blockStart + blockSize), addr, blockStart + blockSize, addr + length);
      ZeroRangeJoin(ZeroRange(before, addr, blockStart), blockStart, blockStart + blockSize, addr + length);
      assert mem[..] == ZeroRange(before, addr, addr + length);
    }
  }
}
