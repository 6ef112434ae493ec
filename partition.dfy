/**
 * Time partitioning of the BlockLoader (BlockLoader.ts): the inclusive range
 * [start, end] in nanoseconds is cut into `blockCount` blocks of a fixed
 * duration, derived once from the range length, a maximum block count and a
 * minimum block duration.
 */
module Partition {

  /** The largest range length accepted: BlockLoader.ts rejects totalNs > 0.9 * Number.MAX_SAFE_INTEGER. */
  const MaxTotalNs: nat := 8106479329266892

  /** The one-second look-behind of setActiveTime. */
  const OneSecondNs: nat := 1000000000

  function CeilDiv(a: nat, b: nat): nat
    requires b > 0
  {
    (a + b - 1) / b
  }

  lemma CeilDivBounds(a: nat, b: nat)
    requires b > 0
    ensures CeilDiv(a, b) * b >= a
    ensures (CeilDiv(a, b) - 1) * b < a
    ensures a > 0 ==> CeilDiv(a, b) >= 1
  {
    var q, r := CeilDiv(a, b), (a + b - 1) % b;
    assert a + b - 1 == q * b + r;
    assert (q - 1) * b == q * b - b;
  }

  lemma MulMono(x: int, y: int, d: nat)
    requires x <= y
    ensures x * d <= y * d
  {
    assert y * d - x * d == (y - x) * d;
  }

  /** Number of nanoseconds in the inclusive range [start, end]. */
  function TotalNs(start: nat, end: nat): (t: nat)
    requires start <= end
    ensures t >= 1
  {
    end - start + 1
  }

  /** ceil(max(minBlockDurationNs, totalNs / maxBlocks)), in integer arithmetic. */
  function BlockDuration(totalNs: nat, maxBlocks: nat, minBlockDurationNs: nat): nat
    requires maxBlocks > 0
  {
    var perBlock := CeilDiv(totalNs, maxBlocks);
    if minBlockDurationNs > perBlock then minBlockDurationNs else perBlock
  }

  /** ceil(totalNs / blockDuration). */
  function BlockCount(totalNs: nat, blockDuration: nat): nat
    requires blockDuration > 0
  {
    CeilDiv(totalNs, blockDuration)
  }

  /**
   * The derived partition: blocks are at least the minimum duration long,
   * together cover the whole range, the last one is not entirely past it, and
   * there are at most `maxBlocks` of them.
   */
  lemma PartitionSound(totalNs: nat, maxBlocks: nat, minBlockDurationNs: nat)
    requires totalNs >= 1 && maxBlocks > 0
    ensures var d := BlockDuration(totalNs, maxBlocks, minBlockDurationNs);
      && d >= 1 && d >= minBlockDurationNs
      && BlockCount(totalNs, d) * d >= totalNs
      && (BlockCount(totalNs, d) - 1) * d < totalNs
      && 1 <= BlockCount(totalNs, d) <= maxBlocks
  {
    var c := CeilDiv(totalNs, maxBlocks);
    CeilDivBounds(totalNs, maxBlocks);
    var d := BlockDuration(totalNs, maxBlocks, minBlockDurationNs);
    assert d >= c >= 1;
    var n := BlockCount(totalNs, d);
    CeilDivBounds(totalNs, d);
    MulMono(c, d, maxBlocks);
    assert c * maxBlocks <= d * maxBlocks;
    if n > maxBlocks {
      MulMono(maxBlocks, n - 1, d);
      assert false;
    }
  }

  /** blockIdToStartTime: the first nanosecond of block `id`. */
  function BlockStart(start: nat, blockDuration: nat, id: nat): nat {
    start + id * blockDuration
  }

  /** blockIdToEndTime: the last nanosecond of block `id`, one before the next block's start. */
  function BlockEnd(start: nat, blockDuration: nat, id: nat): (t: nat)
    requires blockDuration > 0
    ensures t >= start
  {
    MulMono(0, id + 1, blockDuration);
    start + (id + 1) * blockDuration - 1
  }

  /** clampTime(t, lo, hi). */
  function Clamp(t: nat, lo: nat, hi: nat): nat {
    if t < lo then lo else if t > hi then hi else t
  }

  /** Consecutive blocks leave no gap and do not overlap. */
  lemma {:induction false} BlocksContiguous(start: nat, blockDuration: nat, id: nat)
    requires blockDuration > 0
    ensures BlockStart(start, blockDuration, id) <= BlockEnd(start, blockDuration, id)
    ensures BlockEnd(start, blockDuration, id) + 1 == BlockStart(start, blockDuration, id + 1)
  {
    assert (id + 1) * blockDuration == id * blockDuration + blockDuration;
  }

  /** The instant `x` after the start lies in block x / blockDuration, whether or not that block exists. */
  lemma BlockOfOffset(start: nat, blockDuration: nat, x: nat)
    requires blockDuration > 0
    ensures BlockStart(start, blockDuration, x / blockDuration) <= start + x <= BlockEnd(start, blockDuration, x / blockDuration)
  {
    var i := x / blockDuration;
    assert x == i * blockDuration + x % blockDuration;
    BlocksContiguous(start, blockDuration, i);
  }

  /**
   * Every instant of [start, end] lies in exactly one block, the one numbered
   * (t - start) / blockDuration, and that block exists.
   */
  lemma BlockOfTime(start: nat, end: nat, blockDuration: nat, blockCount: nat, t: nat)
    requires start <= t <= end && blockDuration > 0
    requires blockCount * blockDuration >= TotalNs(start, end)
    ensures var i := (t - start) / blockDuration;
      && i < blockCount
      && BlockStart(start, blockDuration, i) <= t <= BlockEnd(start, blockDuration, i)
      && forall j: nat :: BlockStart(start, blockDuration, j) <= t <= BlockEnd(start, blockDuration, j) ==> j == i
  {
    var i := (t - start) / blockDuration;
    BlockOfOffset(start, blockDuration, t - start);
    if i >= blockCount {
      MulMono(blockCount, i, blockDuration);
      assert false;
    }
    forall j: nat | BlockStart(start, blockDuration, j) <= t <= BlockEnd(start, blockDuration, j)
      ensures j == i
    {
      BlocksContiguous(start, blockDuration, j);
      if j < i {
        MulMono(j + 1, i, blockDuration);
      } else if j > i {
        MulMono(i + 1, j, blockDuration);
      }
    }
  }

  /** setActiveTime's block id: floor(max(0, time - start - 1s) / blockDuration). */
  function ActiveBlockFor(time: int, start: nat, blockDuration: nat): nat
    requires blockDuration > 0
  {
    var startNs := time - start - OneSecondNs;
    (if startNs < 0 then 0 else startNs) / blockDuration
  }

  /**
   * The active block is the one holding the instant one second before `time`
   * (or the range start when that is earlier), and it is a real block whenever
   * that instant is within the range. The id is not clamped otherwise.
   */
  lemma ActiveBlockSound(time: int, start: nat, end: nat, blockDuration: nat, blockCount: nat)
    requires start <= end && blockDuration > 0
    requires blockCount * blockDuration >= TotalNs(start, end)
    ensures var id := ActiveBlockFor(time, start, blockDuration);
      var lookBehind := if time - OneSecondNs < start then start else time - OneSecondNs;
      && BlockStart(start, blockDuration, id) <= lookBehind <= BlockEnd(start, blockDuration, id)
      && (time - OneSecondNs <= end ==> id < blockCount)
  {
    var lookBehind := if time - OneSecondNs < start then start else time - OneSecondNs;
    assert ActiveBlockFor(time, start, blockDuration) == (lookBehind - start) / blockDuration;
    BlockOfOffset(start, blockDuration, lookBehind - start);
    if time - OneSecondNs <= end {
      BlockOfTime(start, end, blockDuration, blockCount, lookBehind);
    }
  }
}
