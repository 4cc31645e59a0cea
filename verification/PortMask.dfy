/** Splitting a port range into value/mask blocks. Ports have `n` bits (16 in the
    sources); masks are words with the low `k` bits cleared. */
module PortMask {

  function Pow2(k: nat): (p: nat)
    ensures p >= 1
  {
    if k == 0 then 1 else 2 * Pow2(k - 1)
  }

  /** Bitwise conjunction. */
  function And(a: nat, b: nat): (r: nat)
    ensures r <= a && r <= b
    decreases a
  {
    if a == 0 || b == 0 then 0
    else 2 * And(a / 2, b / 2) + (if a % 2 == 1 && b % 2 == 1 then 1 else 0)
  }

  function Mask(n: nat, k: nat): (m: nat)
    requires k <= n
    ensures m < Pow2(n)
  {
    Pow2Monotone(k, n);
    Pow2(n) - Pow2(k)
  }

  /** Divisible by 2^k. */
  predicate Aligned(p: nat, k: nat) {
    k == 0 || (p % 2 == 0 && Aligned(p / 2, k - 1))
  }

  datatype Block = Block(value: nat, mask: nat) {
    /** The u32 test: the port agrees with the value on every bit of the mask. */
    predicate Matches(port: nat) { And(port, mask) == And(value, mask) }
  }

  function MaxPortForMask(n: nat, port: nat, mask: nat): (m: nat)
    requires mask < Pow2(n)
    ensures m < Pow2(n)
  {
    var maxValueInMask := Pow2(n) - 1 - mask;
    var baseValue := And(port, mask);
    baseValue + maxValueInMask
  }

  /** A left shift of an n-bit word drops the top bit. */
  function ShiftLeft(n: nat, word: nat): nat
    requires word < Pow2(n)
  {
    if 2 * word < Pow2(n) then 2 * word else 2 * word - Pow2(n)
  }

  /** The exponent of the largest block at `p` that is aligned and ends by `to`,
      growing from `k`. Port 0 stays a block of its own. */
  function BlockExp(n: nat, p: nat, to: nat, k: nat := 0): (e: nat)
    requires p <= to < Pow2(n) && k <= n && Aligned(p, k) && p + Pow2(k) - 1 <= to
    ensures k <= e <= n && Aligned(p, e) && p + Pow2(e) - 1 <= to
    decreases n - k
  {
    if p > 0 && k < n && Aligned(p, k + 1) && p + Pow2(k + 1) - 1 <= to
    then BlockExp(n, p, to, k + 1)
    else k
  }

  function Blocks(n: nat, from: nat, to: nat): seq<Block>
    requires to < Pow2(n)
    decreases 1 + to - from
  {
    if from > to then []
    else
      var e := BlockExp(n, from, to);
      [Block(from, Mask(n, e))] + Blocks(n, from + Pow2(e), to)
  }

  /** The masks of a port range: one block that ignores the port for the any-port range. */
  function Masks(n: nat, from: nat, to: nat): seq<Block>
    requires to < Pow2(n)
  {
    if from == 1 && to == Pow2(n) - 2 then [Block(0, 0)] else Blocks(n, from, to)
  }

  // Powers, alignment and masks

  lemma {:induction false} Pow2Monotone(a: nat, b: nat)
    requires a <= b
    ensures Pow2(a) <= Pow2(b)
  {
    if a < b { Pow2Monotone(a, b - 1); }
  }

  lemma {:induction false} AlignedLess(p: nat, k: nat, j: nat)
    requires j <= k && Aligned(p, k)
    ensures Aligned(p, j)
  {
    if j > 0 { AlignedLess(p / 2, k - 1, j - 1); }
  }

  lemma {:induction false} AlignedStep(p: nat, k: nat)
    requires Aligned(p, k)
    ensures Aligned(p + Pow2(k), k)
    ensures !Aligned(p, k + 1) ==> Aligned(p + Pow2(k), k + 1)
  {
    if k > 0 {
      AlignedStep(p / 2, k - 1);
      assert (p + Pow2(k)) / 2 == p / 2 + Pow2(k - 1);
    } else {
      assert Aligned(p, 1) <==> p % 2 == 0;
    }
  }

  /** Of two aligned blocks with a common port, the smaller lies inside the larger. */
  lemma {:induction false} BlocksNest(s: nat, m: nat, p: nat, j: nat)
    requires Aligned(s, m) && Aligned(p, j) && j <= m && s <= p < s + Pow2(m)
    ensures p + Pow2(j) <= s + Pow2(m)
  {
    if j > 0 { BlocksNest(s / 2, m - 1, p / 2, j - 1); }
  }

  lemma {:induction false} AlignedAtLeast(p: nat, k: nat)
    requires p > 0 && Aligned(p, k)
    ensures p >= Pow2(k)
  {
    if k > 0 { AlignedAtLeast(p / 2, k - 1); }
  }

  lemma HalfMask(n: nat, k: nat)
    requires k <= n && n > 0
    ensures k > 0 ==> Mask(n, k) == 2 * Mask(n - 1, k - 1)
    ensures k == 0 ==> Mask(n, 0) == 2 * Mask(n - 1, 0) + 1
  {
  }

  lemma {:induction false} FullMaskKeeps(n: nat, p: nat)
    requires p < Pow2(n)
    ensures And(p, Mask(n, 0)) == p
  {
    if p > 0 {
      HalfMask(n, 0);
      FullMaskKeeps(n - 1, p / 2);
    }
  }

  /** Below the mask's lowest bit nothing is left. */
  lemma NoBitLeft(n: nat, k: nat, p: nat)
    requires k <= n && p < Pow2(n) && (p == 0 || Mask(n, k) == 0)
    ensures And(p, Mask(n, k)) == 0 && p < Pow2(k)
  {
  }

  /** Masking rounds down to the block boundary. */
  lemma {:induction false} AndMaskRoundsDown(n: nat, k: nat, p: nat)
    requires k <= n && p < Pow2(n)
    ensures var r := And(p, Mask(n, k)); Aligned(r, k) && r <= p < r + Pow2(k)
  {
    hide Mask;
    if k == 0 {
      FullMaskKeeps(n, p);
    } else if p == 0 || Mask(n, k) == 0 {
      NoBitLeft(n, k, p);
      ZeroIsAligned(k);
    } else {
      HalfMask(n, k);
      AndMaskRoundsDown(n - 1, k - 1, p / 2);
    }
  }

  lemma {:induction false} ZeroIsAligned(k: nat)
    ensures Aligned(0, k)
  {
    if k > 0 { ZeroIsAligned(k - 1); }
  }

  /** A block's test accepts the ports from its value up to its size. */
  lemma BlockMatchesItsPorts(n: nat, k: nat, p: nat, port: nat)
    requires k <= n && p < Pow2(n) && port < Pow2(n) && Aligned(p, k)
    ensures Block(p, Mask(n, k)).Matches(port) <==> p <= port < p + Pow2(k)
  {
    AndMaskRoundsDown(n, k, p);
    AndMaskRoundsDown(n, k, port);
    var a, b := And(p, Mask(n, k)), And(port, Mask(n, k));
    BlocksNest(a, k, p, k);
    if p <= port < p + Pow2(k) {
      if b < p { BlocksNest(b, k, p, k); } else { BlocksNest(p, k, b, k); }
    }
  }

  // The imperative splitter

  lemma MaskKeepsAlignedPorts(n: nat, k: nat, port: nat)
    requires k <= n && port < Pow2(n)
    ensures And(port, Mask(n, k)) == port <==> Aligned(port, k)
    ensures Aligned(port, k) ==> MaxPortForMask(n, port, Mask(n, k)) == port + Pow2(k) - 1
  {
    AndMaskRoundsDown(n, k, port);
    if Aligned(port, k) { BlocksNest(And(port, Mask(n, k)), k, port, k); }
  }

  /** Taking the next bit out of the mask stays within the word. */
  lemma NextMask(n: nat, k: nat)
    requires k < n
    ensures Mask(n, k) - Pow2(k) == Mask(n, k + 1)
    ensures Pow2(k) <= Mask(n, k)
    ensures Pow2(k) < Pow2(n) && ShiftLeft(n, Pow2(k)) == if k + 1 < n then Pow2(k + 1) else 0
  {
    Pow2Monotone(k + 1, n);
    if k + 1 < n { Pow2Monotone(k + 2, n); }
  }

  lemma SinglePortBlock(n: nat, p: nat)
    requires p < Pow2(n)
    ensures Blocks(n, p, p) == [Block(p, Pow2(n) - 1)]
  {
  }

  /** What one round of the search learns: `j` is the exponent last found to fit,
      `k` the one to try. */
  lemma TryExponent(n: nat, port: nat, to: nat, j: nat, k: nat)
    requires 0 < port <= to < Pow2(n) && j <= k <= n && (k == j + 1 || k == j == 0)
    requires Aligned(port, j) && port + Pow2(j) - 1 < to
    ensures And(port, Mask(n, k)) <= port
    ensures And(port, Mask(n, k)) < port ==> BlockExp(n, port, to, j) == j
    ensures And(port, Mask(n, k)) == port ==>
      && k < n && Aligned(port, k)
      && MaxPortForMask(n, port, Mask(n, k)) == port + Pow2(k) - 1
      && BlockExp(n, port, to, j) == if port + Pow2(k) - 1 <= to then BlockExp(n, port, to, k) else j
  {
    MaskKeepsAlignedPorts(n, k, port);
    if k == n && Aligned(port, k) { AlignedAtLeast(port, n); }
  }

  method PortMask(n: nat, port: nat, to: nat) returns (mask: nat)
    requires n > 0 && port <= to < Pow2(n)
    ensures mask == Mask(n, BlockExp(n, port, to))
  {
    var max := Pow2(n) - 1;
    var bit := 1;
    mask := max;
    var nextMask := max;
    MaskKeepsAlignedPorts(n, 0, port);
    var effective := And(port, nextMask);
    var maxPort := MaxPortForMask(n, effective, max);
    ghost var best := BlockExp(n, port, to);
    ghost var k, j := 0, 0;    // j is the exponent last tried, k the next one
    while effective != 0 && maxPort < to
      invariant k <= n && j == (if k == 0 then 0 else k - 1)
      invariant nextMask == Mask(n, k) && bit == (if k < n then Pow2(k) else 0)
      invariant effective == port && Aligned(port, j) && maxPort == port + Pow2(j) - 1
      invariant maxPort <= to ==> mask == Mask(n, j) && best == BlockExp(n, port, to, j)
      invariant maxPort > to ==> mask == Mask(n, best)
      decreases n - k, if k == 0 then 1 else 0
    {
      TryExponent(n, port, to, j, k);
      effective := And(port, nextMask);
      if effective < port {
        break;
      }
      maxPort := MaxPortForMask(n, effective, nextMask);
      if maxPort <= to {
        mask := nextMask;
      }
      NextMask(n, k);
      assert bit <= nextMask;                // the subtraction does not wrap
      nextMask := nextMask - bit;
      bit := ShiftLeft(n, bit);
      k, j := k + 1, k;
    }
  }

  lemma FirstBlock(n: nat, port: nat, to: nat)
    requires port <= to < Pow2(n)
    ensures var e := BlockExp(n, port, to);
      && Blocks(n, port, to) == [Block(port, Mask(n, e))] + Blocks(n, port + Pow2(e), to)
      && MaxPortForMask(n, port, Mask(n, e)) == port + Pow2(e) - 1
  {
    MaskKeepsAlignedPorts(n, BlockExp(n, port, to), port);
  }

  lemma NoBlocks(n: nat, port: nat, to: nat)
    requires to < port && to < Pow2(n)
    ensures Blocks(n, port, to) == []
  {
  }

  method GetMask(n: nat, from: nat, to: nat) returns (masks: seq<Block>)
    requires n > 0 && from < Pow2(n) && to < Pow2(n)
    ensures masks == Masks(n, from, to)
  {
    hide Blocks, BlockExp, And, Aligned, Mask, MaxPortForMask, Pow2;
    var max := Pow2(n) - 1;
    if from == 1 && to == max - 1 {
      return [Block(0, 0)];
    } else if from == to {
      SinglePortBlock(n, from);
      return [Block(from, max)];
    }
    masks := [];
    if to <= from || to > max {
      NoBlocks(n, from, to);
      return;
    }
    var port := from;
    while port <= to
      invariant from <= port <= max && masks + Blocks(n, port, to) == Blocks(n, from, to)
    {
      var mask := PortMask(n, port, to);
      FirstBlock(n, port, to);
      ghost var before := masks;
      masks := masks + [Block(port, mask)];
      var maxPort := MaxPortForMask(n, port, mask);
      assert before + ([Block(port, mask)] + Blocks(n, maxPort + 1, to)) == masks + Blocks(n, maxPort + 1, to);
      if maxPort == max {
        NoBlocks(n, maxPort + 1, to);
        break;
      }
      port := maxPort + 1;                   // stays below 2^n
    }
    assert masks + [] == masks;
    if port > to { NoBlocks(n, port, to); }
  }

  // The blocks partition the range

  /** How many blocks accept the port. */
  function Hits(masks: seq<Block>, port: nat): nat {
    if masks == [] then 0 else (if masks[0].Matches(port) then 1 else 0) + Hits(masks[1..], port)
  }

  /** Aligned blocks laid end to end from `from` to `to`. */
  ghost predicate Tiles(n: nat, masks: seq<Block>, from: nat, to: nat) {
    if masks == [] then from == to + 1
    else exists k: nat ::
      && k <= n && Aligned(from, k) && masks[0] == Block(from, Mask(n, k))
      && Tiles(n, masks[1..], from + Pow2(k), to)
  }

  lemma {:induction false} BlocksTile(n: nat, from: nat, to: nat)
    requires from <= to + 1 && to < Pow2(n)
    ensures Tiles(n, Blocks(n, from, to), from, to)
    decreases 1 + to - from
  {
    if from <= to {
      var e := BlockExp(n, from, to);
      BlocksTile(n, from + Pow2(e), to);
      var masks := Blocks(n, from, to);
      assert masks[1..] == Blocks(n, from + Pow2(e), to);
    }
  }

  lemma {:induction false} TilesHitOnce(n: nat, masks: seq<Block>, from: nat, to: nat, port: nat)
    requires from <= to + 1 && to < Pow2(n) && port < Pow2(n) && Tiles(n, masks, from, to)
    ensures Hits(masks, port) == if from <= port <= to then 1 else 0
    ensures masks == [] || from < Pow2(n)
    decreases |masks|
  {
    if masks != [] {
      var k: nat :| k <= n && Aligned(from, k) && masks[0] == Block(from, Mask(n, k))
        && Tiles(n, masks[1..], from + Pow2(k), to);
      TilesEndAfterStart(n, masks[1..], from + Pow2(k), to);
      TilesHitOnce(n, masks[1..], from + Pow2(k), to, port);
      BlockMatchesItsPorts(n, k, from, port);
    }
  }

  lemma {:induction false} TilesEndAfterStart(n: nat, masks: seq<Block>, from: nat, to: nat)
    requires Tiles(n, masks, from, to)
    ensures from <= to + 1
    decreases |masks|
  {
    if masks != [] {
      var k: nat :| k <= n && Tiles(n, masks[1..], from + Pow2(k), to);
      TilesEndAfterStart(n, masks[1..], from + Pow2(k), to);
    }
  }

  /** Except for the any-port range, every port of the range is accepted by exactly one
      block and every other port by none; the blocks are aligned and lie end to end. */
  lemma MasksPartitionRange(n: nat, from: nat, to: nat)
    requires from <= to < Pow2(n) && !(from == 1 && to == Pow2(n) - 2)
    ensures Tiles(n, Masks(n, from, to), from, to)
    ensures forall port: nat :: port < Pow2(n) ==>
      Hits(Masks(n, from, to), port) == if from <= port <= to then 1 else 0
  {
    BlocksTile(n, from, to);
    forall port: nat | port < Pow2(n)
      ensures Hits(Masks(n, from, to), port) == if from <= port <= to then 1 else 0
    {
      TilesHitOnce(n, Masks(n, from, to), from, to, port);
    }
  }

  // No cover by aligned blocks is smaller

  /** The aligned block of size 2^exp at `start`. */
  datatype Run = Run(start: nat, exp: nat) {
    ghost predicate Holds(port: nat) { start <= port < start + Pow2(exp) }

    ghost predicate Inside(from: nat, to: nat) {
      Aligned(start, exp) && from <= start && start + Pow2(exp) <= to + 1
    }
  }

  ghost predicate Held(runs: set<Run>, port: nat) {
    exists r :: r in runs && r.Holds(port)
  }

  ghost predicate Cover(runs: set<Run>, from: nat, to: nat) {
    forall port: nat :: from <= port <= to ==> Held(runs, port)
  }

  /** No aligned block of the whole range `lo..to` reaches across the boundary below `p`. */
  ghost predicate Boundary(lo: nat, p: nat, to: nat) {
    forall r: Run :: r.Inside(lo, to) && r.start < p ==> r.start + Pow2(r.exp) <= p
  }

  lemma {:induction false} BlockExpIsLargest(n: nat, p: nat, to: nat, k: nat, m: nat)
    requires 0 < p <= to < Pow2(n) && k <= n && Aligned(p, k) && p + Pow2(k) - 1 <= to
    requires m > BlockExp(n, p, to, k) && Aligned(p, m)
    ensures p + Pow2(m) - 1 > to
    decreases n - k
  {
    var e := BlockExp(n, p, to, k);
    if e > k {
      BlockExpIsLargest(n, p, to, k + 1, m);
    } else {
      AlignedLess(p, m, k + 1);
      Pow2Monotone(k + 1, m);
      if k == n { AlignedAtLeast(p, m); Pow2Monotone(n, m); }
    }
  }

  /** The block chosen at a boundary holds every aligned block of the range that meets it. */
  lemma ChosenBlockAbsorbs(n: nat, lo: nat, p: nat, to: nat, r: Run)
    requires 0 < lo <= p <= to < Pow2(n) && Boundary(lo, p, to)
    requires r.Inside(lo, to) && r.start < p + Pow2(BlockExp(n, p, to))
    ensures r.start + Pow2(r.exp) <= p + Pow2(BlockExp(n, p, to))
  {
    var e := BlockExp(n, p, to);
    if r.start == p {
      if r.exp > e { BlockExpIsLargest(n, p, to, 0, r.exp); } else { Pow2Monotone(r.exp, e); }
    } else if r.start > p {
      if r.exp > e {
        AlignedLess(r.start, r.exp, e);
        BlocksNest(p, e, r.start, e);
      } else {
        BlocksNest(p, e, r.start, r.exp);
      }
    }
  }

  lemma {:induction false} CoversNeedAsMany(n: nat, lo: nat, p: nat, to: nat, runs: set<Run>)
    requires 0 < lo <= p && to < Pow2(n) && Boundary(lo, p, to)
    requires forall r :: r in runs ==> r.Inside(lo, to)
    requires Cover(runs, p, to)
    ensures |Blocks(n, p, to)| <= |runs|
    decreases 1 + to - p
  {
    if p <= to {
      var e := BlockExp(n, p, to);
      var next := p + Pow2(e);
      assert Held(runs, p);
      var r :| r in runs && r.Holds(p);
      ChosenBlockAbsorbs(n, lo, p, to, r);
      forall port: nat | next <= port <= to
        ensures Held(runs - {r}, port)
      {
        assert Held(runs, port);
        var q :| q in runs && q.Holds(port);
        assert q in runs - {r};
      }
      forall q: Run | q.Inside(lo, to) && q.start < next
        ensures q.start + Pow2(q.exp) <= next
      {
        ChosenBlockAbsorbs(n, lo, p, to, q);
      }
      CoversNeedAsMany(n, lo, next, to, runs - {r});
    }
  }

  /** The split is minimal: any set of aligned power-of-two blocks inside the range that
      covers it has at least as many blocks. */
  lemma MasksAreFewest(n: nat, from: nat, to: nat, runs: set<Run>)
    requires 0 < from <= to < Pow2(n)
    requires forall r :: r in runs ==> r.Inside(from, to)
    requires Cover(runs, from, to)
    ensures |Masks(n, from, to)| <= |runs|
  {
    CoversNeedAsMany(n, from, from, to, runs);
    assert Held(runs, from);
  }

  // The number of blocks

  /** Once the rest is shorter than the alignment, exponents strictly fall. */
  lemma {:induction false} FallingBlocks(n: nat, p: nat, to: nat, k: nat)
    requires 0 < p && to < Pow2(n) && Aligned(p, k) && to + 1 < p + Pow2(k)
    ensures |Blocks(n, p, to)| <= k
    decreases 1 + to - p
  {
    if p <= to {
      var e := BlockExp(n, p, to);
      if e >= k { Pow2Monotone(k, e); }
      BlockExpIsLargestNext(n, p, to, k);
      AlignedStep(p, e);
      FallingBlocks(n, p + Pow2(e), to, e);
    }
  }

  lemma BlockExpIsLargestNext(n: nat, p: nat, to: nat, k: nat)
    requires 0 < p <= to < Pow2(n) && Aligned(p, k) && BlockExp(n, p, to) < k
    ensures to + 1 < p + Pow2(BlockExp(n, p, to) + 1)
  {
    var e := BlockExp(n, p, to);
    AlignedLess(p, k, e + 1);
    BlockExpIsLargest(n, p, to, 0, e + 1);
  }

  /** Before that, each block reaches the full alignment of its port, and exponents
      strictly rise. */
  lemma {:induction false} RisingBlocks(n: nat, p: nat, to: nat, k: nat)
    requires 2 <= n && 0 < p && to < Pow2(n) && Aligned(p, k) && k < n
    ensures |Blocks(n, p, to)| <= 2 * (n - 1) - k
    decreases 1 + to - p
  {
    if p <= to {
      var e := BlockExp(n, p, to);
      AlignedStep(p, e);
      AlignedAtLeast(p, e);
      if Aligned(p, e + 1) {
        BlockExpIsLargest(n, p, to, 0, e + 1);
        AlignmentBelowWidth(n, p, e + 1);
        if e >= k {
          FallingBlocks(n, p, to, e + 1);
        } else {
          AlignedLess(p, k, e + 1);
          BlockExpIsLargest(n, p, to, 0, k);
          FallingBlocks(n, p, to, k);
        }
      } else {
        if e < k { AlignedLess(p, k, e + 1); }
        if p + Pow2(e) <= to {
          AlignmentBelowWidth(n, p + Pow2(e), e + 1);
          RisingBlocks(n, p + Pow2(e), to, e + 1);
        } else {
          assert Blocks(n, p + Pow2(e), to) == [];
        }
      }
    }
  }

  lemma AlignmentBelowWidth(n: nat, p: nat, k: nat)
    requires 0 < p < Pow2(n) && Aligned(p, k)
    ensures k < n
  {
  }

  /** At most 2n - 2 blocks: 30 for a range of 16-bit ports. */
  lemma MasksAtMost(n: nat, from: nat, to: nat)
    requires 2 <= n && 0 < from && to < Pow2(n)
    ensures |Masks(n, from, to)| <= 2 * n - 2
  {
    RisingBlocks(n, from, to, 0);
  }
}
