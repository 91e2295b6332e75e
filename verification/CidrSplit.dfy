/**
 Splitting an address range into prefixes (`range_to_cidrs`, src/srs.rs).

 Addresses are 128-bit unsigned integers. The one addition that can leave that range wraps
 around, as the release profile of the source does.
 */
module CidrSplit {
  import opened Basics

  /** `n` is a multiple of 2^k. */
  predicate Aligned(n: nat, k: nat) {
    k == 0 || (n % 2 == 0 && Aligned(n / 2, k - 1))
  }

  /** `u128::trailing_zeros`. */
  function TrailingZeros(n: nat): (z: nat)
    ensures n > 0 ==> Aligned(n, z) && !Aligned(n, z + 1)
  {
    if n == 0 then 128 else if n % 2 == 1 then 0 else 1 + TrailingZeros(n / 2)
  }

  /** `127 - n.leading_zeros()` for a non-zero value. */
  function Log2(n: nat): (l: nat)
    requires n > 0
    ensures Pow2(l) <= n < 2 * Pow2(l)
  {
    if n == 1 then 0 else 1 + Log2(n / 2)
  }

  lemma {:induction false} Pow2Monotone(a: nat, b: nat)
    ensures a <= b ==> Pow2(a) <= Pow2(b)
    ensures a < b ==> 2 * Pow2(a) <= Pow2(b)
    decreases b
  {
    if a < b {
      Pow2Monotone(a, b - 1);
    }
  }

  lemma {:induction false} AlignedLess(n: nat, k: nat, j: nat)
    requires Aligned(n, k) && j <= k
    ensures Aligned(n, j)
    decreases j
  {
    if j > 0 {
      AlignedLess(n / 2, k - 1, j - 1);
    }
  }

  lemma {:induction false} ZeroAligned(k: nat)
    ensures Aligned(0, k)
    decreases k
  {
    if k > 0 {
      ZeroAligned(k - 1);
    }
  }

  /** Adding the lowest set bit carries: the sum is aligned at least one bit further. */
  lemma {:induction false} AlignmentRises(n: nat, a: nat)
    requires Aligned(n, a) && !Aligned(n, a + 1)
    ensures Aligned(n + Pow2(a), a + 1)
    decreases a
  {
    if a > 0 {
      AlignmentRises(n / 2, a - 1);
      assert (n + Pow2(a)) / 2 == n / 2 + Pow2(a - 1);
    }
  }

  /** Adding a smaller block keeps that block's alignment. */
  lemma {:induction false} AlignmentKept(n: nat, k: nat)
    requires Aligned(n, k)
    ensures Aligned(n + Pow2(k), k)
    decreases k
  {
    if k > 0 {
      AlignmentKept(n / 2, k - 1);
      assert (n + Pow2(k)) / 2 == n / 2 + Pow2(k - 1);
    }
  }

  /** A block at the lowest set bit stays inside the address space. */
  lemma {:induction false} BlockFits(n: nat, a: nat, width: nat)
    requires 0 < n < Pow2(width) && Aligned(n, a)
    ensures n + Pow2(a) <= Pow2(width) && a < width
    decreases a
  {
    if a > 0 {
      BlockFits(n / 2, a - 1, width - 1);
    }
  }

  /** An alignment is at most the number of trailing zeros. */
  lemma AlignedBelowTrailing(n: nat, k: nat)
    requires n > 0 && Aligned(n, k)
    ensures k <= TrailingZeros(n)
  {
    AlignedLess(n, k, Min(k, TrailingZeros(n) + 1));
  }

  // ---------------------------------------------------------------- blocks

  /** One emitted prefix `address/prefix`, with the number of its host bits. */
  datatype Cidr = Cidr(v6: bool, address: nat, hostBits: nat)
  {
    function Width(): nat { if v6 then 128 else 32 }

    function Prefix(): int { Width() - hostBits }

    function End(): nat { address + Pow2(hostBits) }

    /** The network contains the address. */
    predicate Has(x: nat) { address <= x < End() }
  }

  ghost predicate WellFormed(c: Cidr, v6: bool) {
    c.v6 == v6 && 0 <= c.Prefix() <= c.Width() && Aligned(c.address, c.hostBits)
  }

  /** Aligned prefixes, ascending and adjacent, from `lo` up to but not including `hi`. */
  ghost predicate Tiles(cs: seq<Cidr>, v6: bool, lo: nat, hi: nat)
    decreases |cs|
  {
    if cs == [] then lo == hi
    else
      var last := cs[|cs| - 1];
      WellFormed(last, v6) && last.End() == hi && Tiles(cs[..|cs| - 1], v6, lo, last.address)
  }

  predicate InSome(cs: seq<Cidr>, x: nat) {
    exists i :: 0 <= i < |cs| && cs[i].Has(x)
  }

  /** Tiles cover exactly their interval. */
  lemma {:induction false} TilesCover(cs: seq<Cidr>, v6: bool, lo: nat, hi: nat, x: nat)
    requires Tiles(cs, v6, lo, hi)
    ensures lo <= hi
    ensures InSome(cs, x) <==> lo <= x < hi
    decreases |cs|
  {
    if cs != [] {
      var front, last := cs[..|cs| - 1], cs[|cs| - 1];
      TilesCover(front, v6, lo, last.address, x);
      assert forall i :: 0 <= i < |front| ==> front[i] == cs[i];
      if last.Has(x) {
        assert cs[|cs| - 1].Has(x);
      }
    }
  }

  /** Tiles are pairwise disjoint, in ascending order. */
  lemma {:induction false} TilesAscend(cs: seq<Cidr>, v6: bool, lo: nat, hi: nat)
    requires Tiles(cs, v6, lo, hi)
    ensures forall i, j :: 0 <= i < j < |cs| ==> cs[i].End() <= cs[j].address
    ensures forall i :: 0 <= i < |cs| ==> cs[i].End() <= hi && WellFormed(cs[i], v6)
    decreases |cs|
  {
    if cs != [] {
      var front, last := cs[..|cs| - 1], cs[|cs| - 1];
      TilesAscend(front, v6, lo, last.address);
      assert forall i :: 0 <= i < |front| ==> front[i] == cs[i];
    }
  }

  /** Block sizes rise strictly up to `peak` and fall strictly from there. */
  ghost predicate RisesThenFalls(cs: seq<Cidr>, peak: nat) {
    && peak <= |cs|
    && (forall i, j :: 0 <= i < j < peak ==> cs[i].hostBits < cs[j].hostBits)
    && (forall i, j :: peak <= i < j < |cs| ==> cs[i].hostBits > cs[j].hostBits)
  }

  /** What the loop knows about the blocks so far and the rest of the range. */
  ghost predicate Progress(cs: seq<Cidr>, peak: nat, width: nat, start: nat, end: nat) {
    && RisesThenFalls(cs, peak)
    && (forall i :: 0 <= i < |cs| ==> cs[i].hostBits < width)
    && (peak > 0 ==> peak <= cs[peak - 1].hostBits + 1)
    && (peak == |cs| && peak > 0 ==> start > 0 && Aligned(start, cs[peak - 1].hostBits + 1))
    && (peak < |cs| ==>
          && end + 1 - start < Pow2(cs[|cs| - 1].hostBits)
          && Aligned(start, cs[|cs| - 1].hostBits)
          && |cs| - peak <= width - cs[|cs| - 1].hostBits)
  }

  /** One more block, at the alignment of `start`: still rising. */
  lemma RisingStep(cs: seq<Cidr>, peak: nat, width: nat, start: nat, end: nat, c: Cidr)
    requires Progress(cs, peak, width, start, end) && peak == |cs|
    requires start > 0 && c.address == start && c.hostBits == TrailingZeros(start) && c.hostBits < width
    ensures Progress(cs + [c], peak + 1, width, c.End(), end)
  {
    AlignmentRises(start, c.hostBits);
    if peak > 0 {
      AlignedBelowTrailing(start, cs[peak - 1].hostBits + 1);
    }
  }

  /** One more block, limited by what is left: falling from here on. */
  lemma FallingStep(cs: seq<Cidr>, peak: nat, width: nat, start: nat, end: nat, c: Cidr)
    requires Progress(cs, peak, width, start, end) && start <= end
    requires c.address == start && c.hostBits == Log2(end + 1 - start) && c.hostBits < width
    requires Aligned(start, c.hostBits)
    ensures Progress(cs + [c], peak, width, c.End(), end)
  {
    AlignmentKept(start, c.hostBits);
    if peak < |cs| {
      Pow2Monotone(cs[|cs| - 1].hostBits, c.hostBits);
    }
  }

  // ---------------------------------------------------------------- the algorithm

  /** The address ranges whose last step leaves 128 bits. */
  predicate Wraps(v6: bool, from: nat, to: nat) {
    v6 && from > 0 && to + 1 == Pow2(128)
  }

  /** The emitted prefixes without the one that wrap-around adds. */
  function Proper(cs: seq<Cidr>, v6: bool, from: nat, to: nat): seq<Cidr> {
    if Wraps(v6, from, to) && cs != [] then cs[..|cs| - 1] else cs
  }

  /** What the split of a valid range must look like, wrap-around included. */
  ghost predicate IsSplit(cs: seq<Cidr>, v6: bool, from: nat, to: nat) {
    var width := if v6 then 128 else 32;
    && Tiles(Proper(cs, v6, from, to), v6, from, to + 1)
    && |Proper(cs, v6, from, to)| <= 2 * width
    && (exists peak: nat :: RisesThenFalls(Proper(cs, v6, from, to), peak))
    && (Wraps(v6, from, to) ==> cs != [] && cs[|cs| - 1] == Cidr(true, 0, 128))
  }

  /** One turn of the loop: the next block at `start`. */
  function HostBits(start: nat, end: nat, width: nat): (h: nat)
    requires start <= end
    ensures h <= width
  {
    var alignment := Min(TrailingZeros(start), width);
    var remaining := if end + 1 == Pow2(128) then 128 else Log2(end - start + 1);
    Min(alignment, remaining)
  }

  /** The block of one turn fits, is aligned, and continues the rise or the fall. */
  lemma BlockStep(cs: seq<Cidr>, peak: nat, v6: bool, from: nat, start: nat, end: nat) returns (peak': nat)
    requires
      var width := if v6 then 128 else 32;
      && start <= end < Pow2(width)
      && Tiles(cs, v6, from, start)
      && Progress(cs, peak, width, start, end)
      && (end + 1 == Pow2(128) ==> peak == |cs|)
      && HostBits(start, end, width) < width
    ensures
      var width := if v6 then 128 else 32;
      var c := Cidr(v6, start, HostBits(start, end, width));
      && c.End() <= end + 1
      && Tiles(cs + [c], v6, from, c.End())
      && Progress(cs + [c], peak', width, c.End(), end)
      && (end + 1 == Pow2(128) ==> peak' == |cs| + 1)
  {
    hide Pow2, Aligned, Log2, Progress;
    var width := if v6 then 128 else 32;
    var c := Cidr(v6, start, HostBits(start, end, width));
    assert (cs + [c])[..|cs|] == cs;
    ZeroAligned(c.hostBits);
    if start > 0 {
      AlignedLess(start, TrailingZeros(start), c.hostBits);
      BlockFits(start, TrailingZeros(start), width);
    }
    if end + 1 == Pow2(128) {
      WidthOfAll(width, end);
      assert start > 0 && c.hostBits == TrailingZeros(start);
      RisingStep(cs, peak, width, start, end, c);
      peak' := peak + 1;
    } else if c.hostBits == Log2(end - start + 1) {
      FallingStep(cs, peak, width, start, end, c);
      peak' := peak;
    } else {
      RisingOnly(cs, peak, width, start, end, c);
      RisingStep(cs, peak, width, start, end, c);
      peak' := peak + 1;
    }
    Pow2Monotone(c.hostBits, Log2(end - start + 1));
  }

  /** Only the IPv6 space ends at the last 128-bit value. */
  lemma WidthOfAll(width: nat, end: nat)
    requires (width == 32 || width == 128) && end < Pow2(width)
    ensures end + 1 == Pow2(128) ==> width == 128
  {
    Pow2Monotone(32, 128);
  }

  /** A block limited by its alignment alone is never met while falling. */
  lemma RisingOnly(cs: seq<Cidr>, peak: nat, width: nat, start: nat, end: nat, c: Cidr)
    requires start <= end < Pow2(width) && Progress(cs, peak, width, start, end)
    requires c.hostBits == Min(TrailingZeros(start), width) < Log2(end - start + 1) && c.hostBits < width
    requires width <= 128
    ensures peak == |cs| && start > 0 && c.hostBits == TrailingZeros(start)
  {
    if peak < |cs| {
      var last := cs[|cs| - 1].hostBits;
      Pow2Monotone(last, Log2(end - start + 1));
      if start > 0 {
        AlignedBelowTrailing(start, last);
      }
    }
  }

  /** The blocks so far tile `[from, start)`; a block of the full width ends the range. */
  ghost predicate Split(cs: seq<Cidr>, peak: nat, v6: bool, from: nat, start: nat, end: nat) {
    var width := if v6 then 128 else 32;
    && Tiles(cs, v6, from, start) && from <= start <= end + 1
    && (Progress(cs, peak, width, start, end) || (cs == [Cidr(v6, 0, width)] && peak == 1 && start == end + 1))
  }

  lemma SplitDone(cs: seq<Cidr>, peak: nat, v6: bool, from: nat, end: nat)
    requires Split(cs, peak, v6, from, end + 1, end)
    ensures Tiles(cs, v6, from, end + 1) && |cs| <= 2 * (if v6 then 128 else 32) && RisesThenFalls(cs, peak)
  {
  }

  /** Before the first step nothing lies between `from` and `start`. */
  lemma TilesEmpty(cs: seq<Cidr>, v6: bool, from: nat)
    requires Tiles(cs, v6, from, 0)
    ensures cs == [] && from == 0
  {
    TilesCover(cs, v6, from, 0, 0);
    if cs != [] {
      TilesCover(cs[..|cs| - 1], v6, from, cs[|cs| - 1].address, 0);
    }
  }

  /** A block of the full width means the range is the whole address space. */
  lemma FullWidth(start: nat, end: nat, width: nat)
    requires (width == 32 || width == 128) && start <= end < Pow2(width) && HostBits(start, end, width) == width
    ensures start == 0 && end + 1 == Pow2(width)
  {
    WidthOfAll(width, end);
    if start > 0 {
      BlockFits(start, TrailingZeros(start), width);
    }
    if end + 1 != Pow2(128) {
      Pow2Monotone(width, Log2(end - start + 1));
    }
  }

  lemma SplitStep(cs: seq<Cidr>, peak: nat, v6: bool, from: nat, start: nat, end: nat) returns (peak': nat)
    requires
      var width := if v6 then 128 else 32;
      && start <= end < Pow2(width)
      && Split(cs, peak, v6, from, start, end)
      && (end + 1 == Pow2(128) ==> peak == |cs|)
      && HostBits(start, end, width) < 128
    ensures
      var width := if v6 then 128 else 32;
      var c := Cidr(v6, start, HostBits(start, end, width));
      && Split(cs + [c], peak', v6, from, c.End(), end)
      && (end + 1 == Pow2(128) ==> peak' == |cs| + 1)
  {
    var width := if v6 then 128 else 32;
    var h := HostBits(start, end, width);
    WidthOfAll(width, end);
    if h == width {
      FullWidth(start, end, width);
      TilesEmpty(cs, v6, from);
      ZeroAligned(width);
      var c := Cidr(v6, start, h);
      assert cs + [c] == [c] && [c][..0] == [];
      peak' := 1;
    } else {
      peak' := BlockStep(cs, peak, v6, from, start, end);
    }
  }

  method RangeToCidrs(from: IpAddr, to: IpAddr) returns (r: Result<seq<Cidr>>)
    requires 0 <= from.bits < Pow2(if from.V6? then 128 else 32) && 0 <= to.bits < Pow2(if to.V6? then 128 else 32)
    ensures r.Ok? <==> from.V6? == to.V6? && from.bits <= to.bits
    ensures r.Ok? ==> IsSplit(r.value, from.V6?, from.bits, to.bits)
  {
    hide Pow2, Loop, HostBits, IsSplit;
    if from.V6? != to.V6? || from.bits > to.bits {
      return Err;
    }
    var v6 := from.V6?;
    var width := if v6 then 128 else 32;
    var start: nat, end: nat := from.bits, to.bits;
    var result: seq<Cidr> := [];
    ghost var peak: nat := 0;
    ghost var wrapped := false;
    LoopStart(v6, start, end);
    while start <= end
      invariant Loop(result, peak, v6, from.bits, start, end, wrapped)
      decreases if wrapped then 0 else end + 2 - start
    {
      var hostBits := HostBits(start, end, width);
      ghost var front := result;
      result := result + [Cidr(v6, start, hostBits)];
      if hostBits == 128 {
        LoopBreak(front, peak, v6, from.bits, start, end, wrapped);
        return Ok(result);
      }
      peak, wrapped := LoopStep(front, peak, v6, from.bits, start, end, wrapped);
      start := (start + Pow2(hostBits)) % Pow2(128);
    }
    LoopExit(result, peak, v6, from.bits, start, end, wrapped);
    return Ok(result);
  }

  /** The loop invariant: blocks up to `start`, or all of them when `start` has wrapped to zero. */
  ghost predicate Loop(cs: seq<Cidr>, peak: nat, v6: bool, from: nat, start: nat, end: nat, wrapped: bool) {
    && from <= end < Pow2(if v6 then 128 else 32)
    && (if wrapped
        then Wraps(v6, from, end) && start == 0 && Split(cs, peak, v6, from, end + 1, end)
        else Split(cs, peak, v6, from, start, end)
             && (end + 1 == Pow2(128) ==> start <= end && peak == |cs| && (from == 0 ==> start == 0)))
  }

  lemma LoopStart(v6: bool, from: nat, end: nat)
    requires from <= end < Pow2(if v6 then 128 else 32)
    ensures Loop([], 0, v6, from, from, end, false)
  {
    hide Pow2;
  }

  /** The whole IPv6 space is one block, so a range from zero never gets to wrap. */
  lemma WholeSpace(end: nat)
    requires end + 1 == Pow2(128)
    ensures HostBits(0, end, 128) == 128
  {
    hide Pow2;
  }

  lemma LoopStep(cs: seq<Cidr>, peak: nat, v6: bool, from: nat, start: nat, end: nat, wrapped: bool)
    returns (peak': nat, wrapped': bool)
    requires
      var width := if v6 then 128 else 32;
      && start <= end && Loop(cs, peak, v6, from, start, end, wrapped)
      && HostBits(start, end, width) < 128
    ensures
      var c := Cidr(v6, start, HostBits(start, end, if v6 then 128 else 32));
      && !wrapped
      && Loop(cs + [c], peak', v6, from, c.End() % Pow2(128), end, wrapped')
      && (!wrapped' ==> c.End() % Pow2(128) == c.End())
      && c.End() > start
  {
    hide Pow2, Progress, Tiles, HostBits;
    var width := if v6 then 128 else 32;
    WidthOfAll(width, end);
    Pow2Monotone(width, 128);
    if end + 1 == Pow2(128) {
      WholeSpace(end);
    }
    peak' := SplitStep(cs, peak, v6, from, start, end);
    var c := Cidr(v6, start, HostBits(start, end, width));
    wrapped' := c.End() == Pow2(128);
    Remainder(c.End(), Pow2(128));
  }

  lemma Remainder(x: nat, m: nat)
    requires 0 < m && x <= m
    ensures x % m == if x == m then 0 else x
  {
  }

  lemma LoopBreak(cs: seq<Cidr>, peak: nat, v6: bool, from: nat, start: nat, end: nat, wrapped: bool)
    requires start <= end && Loop(cs, peak, v6, from, start, end, wrapped)
    requires HostBits(start, end, if v6 then 128 else 32) == 128
    ensures IsSplit(cs + [Cidr(v6, start, 128)], v6, from, end)
  {
    hide Pow2, Progress;
    var c := Cidr(v6, start, 128);
    assert v6;
    if wrapped {
      assert Proper(cs + [c], v6, from, end) == cs;
      SplitDone(cs, peak, v6, from, end);
    } else {
      FullWidth(start, end, 128);
      TilesEmpty(cs, v6, from);
      ZeroAligned(128);
      assert cs + [c] == [c] && [c][..0] == [];
      assert Tiles([c], v6, 0, end + 1);
      assert RisesThenFalls(Proper(cs + [c], v6, from, end), 1);
    }
  }

  lemma LoopExit(cs: seq<Cidr>, peak: nat, v6: bool, from: nat, start: nat, end: nat, wrapped: bool)
    requires start > end && Loop(cs, peak, v6, from, start, end, wrapped)
    ensures IsSplit(cs, v6, from, end)
  {
    hide Pow2, Progress;
    WidthOfAll(if v6 then 128 else 32, end);
    SplitDone(cs, peak, v6, from, end);
    assert Proper(cs, v6, from, end) == cs;
  }

  /**
   The exact condition under which the prefixes cover the range and nothing else: they do so
   unless the range is an IPv6 range that ends at the last address but does not start at zero.
   */
  lemma SplitExactIff(cs: seq<Cidr>, v6: bool, from: nat, to: nat)
    requires from <= to && IsSplit(cs, v6, from, to)
    ensures (forall x: nat :: InSome(cs, x) <==> from <= x <= to) <==> !Wraps(v6, from, to)
  {
    hide Pow2;
    if Wraps(v6, from, to) {
      assert cs[|cs| - 1].Has(0);
      assert InSome(cs, 0);
    } else {
      forall x: nat ensures InSome(cs, x) <==> from <= x <= to {
        TilesCover(cs, v6, from, to + 1, x);
      }
    }
  }

  /** The failing case in the small: the last IPv6 address alone also yields `::/0`. */
  lemma LastAddressWraps(cs: seq<Cidr>)
    requires IsSplit(cs, true, Pow2(128) - 1, Pow2(128) - 1)
    ensures Wraps(true, Pow2(128) - 1, Pow2(128) - 1) && Cidr(true, 0, 128) in cs && InSome(cs, 0)
  {
    Pow2Monotone(1, 128);
    assert cs[|cs| - 1].Has(0);
  }
}
