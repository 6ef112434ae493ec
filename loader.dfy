/**
 * BlockLoader (BlockLoader.ts): loads fixed-duration blocks of messages from a
 * log source into a bounded cache, nearest the playback position first,
 * evicting whole blocks to stay within a byte budget, and reports which
 * blocks are fully loaded.
 */
module Loader {
  import opened Wrappers
  import opened Messages
  import opened Partition
  import opened BlockStore
  import opened Cursor

  /** MessageIteratorArgs: the topics and the inclusive time span one cursor reads. */
  datatype IteratorArgs = IteratorArgs(topics: set<Topic>, start: nat, end: nat)

  /**
   * The value handed to the progress callback: the fully loaded block-index
   * runs, a snapshot of the blocks and the range start time.
   */
  datatype Progress = Progress(fullyLoadedRanges: seq<Range>, blocks: seq<Option<Block>>, startTime: nat)

  /** One span read through a single cursor: blocks first..last, for the given topics. */
  datatype Fetch = Fetch(first: nat, last: nat, topics: set<Topic>)

  /** How the handling of one readUntil result ended. */
  datatype BlockOutcome =
    | Stored       // a non-empty read was stored
    | StoredEmpty  // an empty read marked the fetched topics as present
    | Cancelled    // the cursor reported cancellation
    | Starved      // no block could be evicted to admit a message

  /**
   * The spans of one loadBlockRange call (the fetches from index `from` on): each starts in [begin, last), lies
   * within the store and fetches subscribed topics (some, when any are
   * subscribed), and consecutive spans are separated by at least one block.
   */
  ghost predicate SpansPlaced(fs: seq<Fetch>, from: nat, begin: nat, last: nat, n: nat, topics: set<Topic>) {
    && from <= |fs|
    && (forall k :: from <= k < |fs| ==>
         && begin <= fs[k].first < last
         && fs[k].first <= fs[k].last < n
         && fs[k].topics <= topics
         && (topics != {} ==> fs[k].topics != {}))
    && (forall k :: from <= k && k + 1 < |fs| ==> fs[k].last + 1 < fs[k + 1].first)
  }

  lemma SpansPlacedAppend(fs: seq<Fetch>, from: nat, f: Fetch, begin: nat, last: nat, n: nat, topics: set<Topic>)
    requires SpansPlaced(fs, from, begin, last, n, topics)
    requires begin <= f.first < last && f.first <= f.last < n && f.topics <= topics
    requires topics != {} ==> f.topics != {}
    requires |fs| > from ==> fs[|fs| - 1].last + 1 < f.first
    ensures SpansPlaced(fs + [f], from, begin, last, n, topics)
  {
  }

  /**
   * `after` is `before` with block `c` set to `v`; any other block that
   * changed was evicted, and is one evictBlock may clear while block `c` is
   * loaded with block `a` active.
   */
  ghost predicate BlockStep(before: seq<Option<Block>>, after: seq<Option<Block>>, a: nat, c: nat, v: Option<Block>) {
    && |before| == |after|
    && c < |after|
    && after[c] == v
    && forall j :: 0 <= j < |after| && j != c ==> after[j] == before[j] || (after[j].None? && MayEvict(j, a, c))
  }

  /**
   * Block `j` is one evictBlock may clear while some block of [first, last]
   * is loaded with block `a` active: the backward scans of the blocks below
   * `a` clear (first, a); the forward scans of the blocks above `a` clear
   * (0, a) and everything above the lowest such block.
   */
  predicate SpanMayEvict(j: nat, a: nat, first: nat, last: nat) {
    || (first < a && first < j < a)
    || (a < last && (0 < j < a || (first <= a && a + 1 < j) || (a < first && first < j)))
  }

  /** SpanMayEvict is exactly "MayEvict for some block of the span". */
  lemma SpanMayEvictExact(j: nat, a: nat, first: nat, last: nat)
    requires first <= last
    ensures SpanMayEvict(j, a, first, last) <==> exists c :: first <= c <= last && MayEvict(j, a, c)
  {
    if SpanMayEvict(j, a, first, last) {
      if first < a && first < j < a {
        assert MayEvict(j, a, first);
      } else if 0 < j < a {
        assert MayEvict(j, a, last);
      } else if first <= a {
        assert MayEvict(j, a, a + 1);
      } else {
        assert MayEvict(j, a, first);
      }
    }
  }

  /** Block `j` is one evictBlock may clear while some block of the spans `fs[from..]` is loaded. */
  ghost predicate EvictedIn(fs: seq<Fetch>, from: nat, a: nat, j: nat) {
    exists k :: from <= k < |fs| && SpanMayEvict(j, a, fs[k].first, fs[k].last)
  }

  /** Block `j` lies in one of the spans `fs[from..]`. */
  ghost predicate InSpans(fs: seq<Fetch>, from: nat, j: nat) {
    exists k :: from <= k < |fs| && fs[k].first <= j <= fs[k].last
  }

  /** The block holds an array for every subscribed topic it needs: the walk passes it by. */
  predicate NeedsNothing(b: Option<Block>) {
    b.Some? && b.value.needTopics == {}
  }

  /**
   * Every block in [lo, hi) either needed nothing in `before`, lies in one of
   * the spans `fs[from..]`, or directly follows one.
   */
  ghost predicate WalkCovers(before: seq<Option<Block>>, fs: seq<Fetch>, from: nat, lo: nat, hi: nat) {
    forall j :: lo <= j < hi && j < |before| ==>
      NeedsNothing(before[j]) || exists k :: from <= k < |fs| && fs[k].first <= j <= fs[k].last + 1
  }

  /** Coverage extends over blocks that needed nothing or that the next span reaches. */
  lemma WalkCoversExtend(before: seq<Option<Block>>, fs: seq<Fetch>, from: nat, lo: nat, hi: nat, f: Fetch, hi': nat)
    requires from <= |fs| && WalkCovers(before, fs, from, lo, hi)
    requires forall j :: hi <= j < hi' && j < |before| ==> NeedsNothing(before[j]) || f.first <= j <= f.last + 1
    ensures WalkCovers(before, fs + [f], from, lo, if hi < hi' then hi' else hi)
  {
    var fs' := fs + [f];
    forall j | lo <= j < (if hi < hi' then hi' else hi) && j < |before| && !NeedsNothing(before[j])
      ensures exists k :: from <= k < |fs'| && fs'[k].first <= j <= fs'[k].last + 1
    {
      if j < hi {
        var k :| from <= k < |fs| && fs[k].first <= j <= fs[k].last + 1;
        assert fs'[k] == fs[k];
      } else {
        assert fs'[|fs|] == f;
      }
    }
  }

  /** How many of the reads are non-empty: the number of progress reports a completed span makes. */
  function NonEmptyCount(rs: seq<seq<IterResult>>): (n: nat)
    ensures n <= |rs|
  {
    if |rs| == 0 then 0
    else NonEmptyCount(rs[..|rs| - 1]) + (if |rs[|rs| - 1]| > 0 then 1 else 0)
  }

  class BlockLoader {
    /** The log source: the results its message iterator yields for the given arguments. */
    const source: IteratorArgs -> seq<IterResult>
    const blocks: array<Option<Block>>
    const start: nat
    const end: nat
    const blockDurationNanos: nat
    const maxCacheSize: nat
    var topics: set<Topic>
    var activeBlockId: nat
    var stopped: bool
    /** The abort controller's signal, as a flag. */
    var aborted: bool
    /** Set when the condition variable is notified. */
    var notified: bool
    /** Every value passed to the progress callback, in order. */
    var reported: seq<Progress>
    /** Every span a cursor was opened for, in order. */
    ghost var Fetches: seq<Fetch>

    /**
     * The cache is within its byte budget, and an allocated block's needTopics
     * only names subscribed topics it holds no array for.
     */
    ghost predicate Valid()
      reads this, blocks
    {
      && start <= end
      && blockDurationNanos > 0
      && CacheSize(blocks[..]) <= maxCacheSize
      && forall i :: 0 <= i < blocks.Length && blocks[i].Some? ==>
           blocks[i].value.needTopics <= topics - blocks[i].value.messagesByTopic.Keys
    }

    /**
     * The cursor arguments of a span: its topics, from the start of its first
     * block to the end of its last block, clamped to the range end.
     */
    function SpanArgs(f: Fetch): IteratorArgs
      requires blockDurationNanos > 0
    {
      IteratorArgs(f.topics, BlockStart(start, blockDurationNanos, f.first),
                   Clamp(BlockEnd(start, blockDurationNanos, f.last), start, end))
    }

    /** The end times a span's cursor is read up to: each block's end, clamped to the range. */
    function UntilTimes(first: nat, last: nat): (ts: seq<nat>)
      requires blockDurationNanos > 0 && first <= last
      ensures |ts| == last - first + 1
    {
      seq<nat>(last - first + 1, (i: nat) => Clamp(BlockEnd(start, blockDurationNanos, first + i), start, end))
    }

    /**
     * What each block of a span receives, in block order: the successive reads
     * of one fresh cursor over the span's stream, each up to its block's end.
     */
    function SpanReads(f: Fetch): (rs: seq<seq<IterResult>>)
      requires blockDurationNanos > 0 && f.first <= f.last
      ensures |rs| == f.last - f.first + 1
    {
      Reads(source(SpanArgs(f)), CursorState(0, None), UntilTimes(f.first, f.last))
    }

    /**
     * Block `j` of span `f` holds that span's read for it, stored over what the
     * block held before the span, or over nothing when it had been evicted.
     */
    ghost predicate FilledBySpan(before: Option<Block>, after: Option<Block>, f: Fetch, j: nat)
      requires blockDurationNanos > 0 && f.first <= j <= f.last
    {
      && after.Some?
      && (|| after.value == Fill(before, SpanReads(f)[j - f.first], f.topics)
          || after.value == Fill(None, SpanReads(f)[j - f.first], f.topics))
    }

    /**
     * The effect of reading span `f` with block `a` active, of which the
     * first `loaded` blocks were read and stored: each of those holds its read,
     * or was evicted afterwards by a read ahead of the active block (which
     * clears only blocks in (0, a)); every other block is unchanged or was
     * evicted by a read of the span.
     */
    ghost predicate SpanResult(before: seq<Option<Block>>, after: seq<Option<Block>>, f: Fetch, loaded: nat, a: nat)
      requires blockDurationNanos > 0
    {
      && |before| == |after|
      && f.first <= f.last
      && f.first + loaded <= f.last + 1
      && UnreadKept(before, after, f, loaded, a)
      && ReadStored(before, after, f, loaded, a)
    }

    /** SpanResult for the blocks outside the part of the span read so far. */
    ghost predicate UnreadKept(before: seq<Option<Block>>, after: seq<Option<Block>>, f: Fetch, loaded: nat, a: nat)
      requires |before| == |after|
    {
      forall j :: 0 <= j < |after| && !(f.first <= j < f.first + loaded) ==>
        after[j] == before[j] || (after[j].None? && SpanMayEvict(j, a, f.first, f.last))
    }

    /** SpanResult for the blocks of the span read so far. */
    ghost predicate ReadStored(before: seq<Option<Block>>, after: seq<Option<Block>>, f: Fetch, loaded: nat, a: nat)
      requires blockDurationNanos > 0 && |before| == |after| && f.first + loaded <= f.last + 1
    {
      forall j :: f.first <= j < f.first + loaded && j < |after| ==>
        FilledBySpan(before[j], after[j], f, j) || (after[j].None? && 0 < j < a)
    }

    /** One more block of a span read and stored (`stored`), or nothing more stored. */
    lemma SpanResultStep(b0: seq<Option<Block>>, cur: seq<Option<Block>>, after: seq<Option<Block>>,
                         f: Fetch, loaded: nat, a: nat, c: nat, read: seq<IterResult>, stored: bool)
      requires blockDurationNanos > 0
      requires SpanResult(b0, cur, f, loaded, a) && c == f.first + loaded <= f.last && c < |cur|
      requires read == SpanReads(f)[loaded]
      requires BlockStep(cur, after, a, c, if stored then Some(Fill(cur[c], read, f.topics)) else cur[c])
      ensures SpanResult(b0, after, f, if stored then loaded + 1 else loaded, a)
    {
      UnreadStep(b0, cur, after, f, loaded, a, c, read, stored);
      ReadStep(b0, cur, after, f, loaded, a, c, read, stored);
    }

    /** SpanResultStep for the blocks not yet read. */
    lemma UnreadStep(b0: seq<Option<Block>>, cur: seq<Option<Block>>, after: seq<Option<Block>>,
                     f: Fetch, loaded: nat, a: nat, c: nat, read: seq<IterResult>, stored: bool)
      requires blockDurationNanos > 0 && |b0| == |cur|
      requires UnreadKept(b0, cur, f, loaded, a) && c == f.first + loaded <= f.last && c < |cur|
      requires BlockStep(cur, after, a, c, if stored then Some(Fill(cur[c], read, f.topics)) else cur[c])
      ensures UnreadKept(b0, after, f, if stored then loaded + 1 else loaded, a)
    {
      var n := if stored then loaded + 1 else loaded;
      forall j | 0 <= j < |after| && !(f.first <= j < f.first + n)
        ensures after[j] == b0[j] || (after[j].None? && SpanMayEvict(j, a, f.first, f.last))
      {
        assert cur[j] == b0[j] || (cur[j].None? && SpanMayEvict(j, a, f.first, f.last));
        if j != c && after[j] != cur[j] {
          assert MayEvict(j, a, c);
        }
      }
    }

    /** SpanResultStep for the blocks read so far, and the one just read when stored. */
    lemma ReadStep(b0: seq<Option<Block>>, cur: seq<Option<Block>>, after: seq<Option<Block>>,
                   f: Fetch, loaded: nat, a: nat, c: nat, read: seq<IterResult>, stored: bool)
      requires blockDurationNanos > 0 && |b0| == |cur| && f.first <= f.last
      requires c == f.first + loaded <= f.last && c < |cur|
      requires ReadStored(b0, cur, f, loaded, a)
      requires cur[c] == b0[c] || cur[c].None?
      requires read == SpanReads(f)[loaded]
      requires BlockStep(cur, after, a, c, if stored then Some(Fill(cur[c], read, f.topics)) else cur[c])
      ensures ReadStored(b0, after, f, if stored then loaded + 1 else loaded, a)
    {
      var n := if stored then loaded + 1 else loaded;
      forall j | f.first <= j < f.first + n && j < |after|
        ensures FilledBySpan(b0[j], after[j], f, j) || (after[j].None? && 0 < j < a)
      {
        if j == c {
          ReadNew(b0[c], cur[c], after[c], f, c, read);
        } else {
          ReadOld(b0[j], cur[j], after[j], f, j, a, c);
        }
      }
    }

    /** The block just read holds the read, over its old value or over nothing. */
    lemma ReadNew(b: Option<Block>, cur: Option<Block>, after: Option<Block>, f: Fetch, c: nat, read: seq<IterResult>)
      requires blockDurationNanos > 0 && f.first <= c <= f.last
      requires cur == b || cur.None?
      requires read == SpanReads(f)[c - f.first]
      requires after == Some(Fill(cur, read, f.topics))
      ensures FilledBySpan(b, after, f, c)
    {
    }

    /** A block read earlier keeps its read unless a read ahead of the active block evicts it. */
    lemma ReadOld(b: Option<Block>, cur: Option<Block>, after: Option<Block>, f: Fetch, j: nat, a: nat, c: nat)
      requires blockDurationNanos > 0 && f.first <= j < c <= f.last
      requires FilledBySpan(b, cur, f, j) || (cur.None? && 0 < j < a)
      requires after == cur || (after.None? && MayEvict(j, a, c))
      ensures FilledBySpan(b, after, f, j) || (after.None? && 0 < j < a)
    {
    }

    /**
     * Why a span stopped at its block `l`: that block's read is non-empty and
     * does not fit the budget over the store `s` left by the evictions, and
     * evictBlock finds nothing more to clear.
     */
    ghost predicate StoppedAt(s: seq<Option<Block>>, f: Fetch, l: nat, a: nat)
      requires blockDurationNanos > 0
    {
      && f.first + l <= f.last
      && f.first + l < |s|
      && |SpanReads(f)[l]| > 0
      && CacheSize(s) + PayloadSize(SpanReads(f)[l]) > maxCacheSize
      && EvictionChoice(s, a, f.first + l).None?
    }

    /**
     * The effect of one walk that read the spans `fs[from..]` with block `a`
     * active: a block outside them is unchanged or was evicted by a read of
     * one of them; a block of a span holds that span's read, or was evicted
     * by a later read ahead of the active block. When the walk stopped early
     * (`!completed`), it stopped on a starved read of its last span, whose
     * unread blocks are unchanged or evicted.
     */
    ghost predicate RangeResult(before: seq<Option<Block>>, after: seq<Option<Block>>, fs: seq<Fetch>, from: nat,
                                completed: bool, a: nat)
      requires blockDurationNanos > 0
    {
      && from <= |fs|
      && OutsideSpans(before, after, fs, from, a)
      && SpanBlocks(before, after, fs, from, completed, a)
      && StopsWalk(after, fs, from, completed, a)
    }

    /** RangeResult for the blocks outside the spans: unchanged, or evicted by a read of a span. */
    ghost predicate OutsideSpans(before: seq<Option<Block>>, after: seq<Option<Block>>, fs: seq<Fetch>, from: nat, a: nat) {
      && |before| == |after|
      && forall j :: 0 <= j < |after| ==>
           after[j] == before[j] || InSpans(fs, from, j) || (after[j].None? && EvictedIn(fs, from, a, j))
    }

    /** RangeResult for the blocks of the spans. */
    ghost predicate SpanBlocks(before: seq<Option<Block>>, after: seq<Option<Block>>, fs: seq<Fetch>, from: nat,
                               completed: bool, a: nat)
      requires blockDurationNanos > 0
    {
      && |before| == |after|
      && (forall k :: from <= k < |fs| ==> fs[k].first <= fs[k].last < |after|)
      && (forall k :: from <= k < |fs| ==> SpanKept(before, after, fs[k], !completed && k == |fs| - 1, fs, from, a))
    }

    /**
     * Each block of span `f` holds the span's read, or was evicted by a later
     * read ahead of the active block; when the span is `open` (it stopped the
     * walk), a block may also be unchanged or evicted by a read of the walk.
     */
    ghost predicate SpanKept(before: seq<Option<Block>>, after: seq<Option<Block>>, f: Fetch, open: bool,
                             fs: seq<Fetch>, from: nat, a: nat)
      requires blockDurationNanos > 0 && |before| == |after| && f.last < |after|
    {
      forall j :: f.first <= j <= f.last ==>
        || FilledBySpan(before[j], after[j], f, j)
        || (after[j].None? && 0 < j < a)
        || (open && (after[j] == before[j] || (after[j].None? && EvictedIn(fs, from, a, j))))
    }

    /** RangeResult for a walk that stopped early: its last span stopped on a starved read. */
    ghost predicate StopsWalk(after: seq<Option<Block>>, fs: seq<Fetch>, from: nat, completed: bool, a: nat)
      requires blockDurationNanos > 0
    {
      !completed ==> from < |fs| && exists l {:trigger StoppedAt(after, fs[|fs| - 1], l, a)} :: StoppedAt(after, fs[|fs| - 1], l, a)
    }

    /** A walk that has read no span yet has changed nothing. */
    lemma RangeResultStart(before: seq<Option<Block>>, fs: seq<Fetch>, a: nat)
      requires blockDurationNanos > 0
      ensures RangeResult(before, before, fs, |fs|, true, a)
    {
    }

    /** Blocks of the walk's spans, or evicted by them, stay so once one more span is appended. */
    lemma SpansAppend(fs: seq<Fetch>, from: nat, a: nat, f: Fetch, j: nat)
      requires from <= |fs|
      ensures InSpans(fs, from, j) ==> InSpans(fs + [f], from, j)
      ensures f.first <= j <= f.last ==> InSpans(fs + [f], from, j)
      ensures EvictedIn(fs, from, a, j) ==> EvictedIn(fs + [f], from, a, j)
      ensures SpanMayEvict(j, a, f.first, f.last) ==> EvictedIn(fs + [f], from, a, j)
    {
      var fs' := fs + [f];
      if InSpans(fs, from, j) {
        var k :| from <= k < |fs| && fs[k].first <= j <= fs[k].last;
        assert fs'[k] == fs[k];
      }
      if EvictedIn(fs, from, a, j) {
        var k :| from <= k < |fs| && SpanMayEvict(j, a, fs[k].first, fs[k].last);
        assert fs'[k] == fs[k];
      }
      assert fs'[|fs|] == f;
    }

    /** RangeResultStep for the blocks outside the spans and beyond the new one. */
    lemma RangeOutsideStep(b0: seq<Option<Block>>, cur: seq<Option<Block>>, after: seq<Option<Block>>,
                           fs: seq<Fetch>, from: nat, a: nat, f: Fetch, loaded: nat)
      requires blockDurationNanos > 0
      requires RangeResult(b0, cur, fs, from, true, a)
      requires forall j :: f.first <= j < |cur| ==> cur[j] == b0[j] || (cur[j].None? && EvictedIn(fs, from, a, j))
      requires SpanResult(cur, after, f, loaded, a)
      ensures OutsideSpans(b0, after, fs + [f], from, a)
      ensures forall j :: f.last < j < |after| ==>
                after[j] == b0[j] || (after[j].None? && EvictedIn(fs + [f], from, a, j))
    {
      forall j | 0 <= j < |after|
        ensures after[j] == b0[j] || InSpans(fs + [f], from, j) || (after[j].None? && EvictedIn(fs + [f], from, a, j))
        ensures f.last < j ==> after[j] == b0[j] || (after[j].None? && EvictedIn(fs + [f], from, a, j))
      {
        SpansAppend(fs, from, a, f, j);
      }
    }

    /** RangeResultStep for the blocks of the spans, old and new. */
    lemma RangeSpansStep(b0: seq<Option<Block>>, cur: seq<Option<Block>>, after: seq<Option<Block>>,
                         fs: seq<Fetch>, from: nat, a: nat, f: Fetch, loaded: nat, spanDone: bool)
      requires blockDurationNanos > 0 && from <= |fs|
      requires SpanBlocks(b0, cur, fs, from, true, a)
      requires forall j :: f.first <= j < |cur| ==> cur[j] == b0[j] || (cur[j].None? && EvictedIn(fs, from, a, j))
      requires forall k :: from <= k < |fs| ==> fs[k].last < f.first
      requires f.last < |cur| && SpanResult(cur, after, f, loaded, a)
      requires spanDone ==> loaded == f.last - f.first + 1
      ensures SpanBlocks(b0, after, fs + [f], from, spanDone, a)
    {
      var fs' := fs + [f];
      assert forall k :: from <= k < |fs'| ==> fs'[k].first <= fs'[k].last < |after| by {
        assert fs'[|fs|] == f;
      }
      forall k | from <= k < |fs'|
        ensures SpanKept(b0, after, fs'[k], !spanDone && k == |fs'| - 1, fs', from, a)
      {
        if k < |fs| {
          assert fs'[k] == fs[k];
          OldSpanKept(b0, cur, after, fs, from, k, a, f, loaded, fs');
        } else {
          assert fs'[k] == f;
          NewSpanKept(b0, cur, after, fs, from, a, f, loaded, spanDone);
        }
      }
    }

    /** The blocks of an earlier span keep their reads, or are evicted by reads ahead of the active block. */
    lemma OldSpanKept(b0: seq<Option<Block>>, cur: seq<Option<Block>>, after: seq<Option<Block>>,
                      fs: seq<Fetch>, from: nat, k: nat, a: nat, f: Fetch, loaded: nat, fs': seq<Fetch>)
      requires blockDurationNanos > 0 && SpanBlocks(b0, cur, fs, from, true, a)
      requires from <= k < |fs| && fs[k].last < f.first
      requires SpanResult(cur, after, f, loaded, a)
      ensures SpanKept(b0, after, fs[k], false, fs', from, a)
    {
      assert SpanKept(b0, cur, fs[k], false, fs, from, a);
    }

    /** The blocks of the new span hold their reads, or were evicted, or (when the span stopped) were not reached. */
    lemma NewSpanKept(b0: seq<Option<Block>>, cur: seq<Option<Block>>, after: seq<Option<Block>>,
                      fs: seq<Fetch>, from: nat, a: nat, f: Fetch, loaded: nat, spanDone: bool)
      requires blockDurationNanos > 0 && from <= |fs| && |b0| == |cur| && f.last < |cur|
      requires forall j :: f.first <= j < |cur| ==> cur[j] == b0[j] || (cur[j].None? && EvictedIn(fs, from, a, j))
      requires SpanResult(cur, after, f, loaded, a)
      requires spanDone ==> loaded == f.last - f.first + 1
      ensures SpanKept(b0, after, f, !spanDone, fs + [f], from, a)
    {
      forall j | f.first <= j <= f.last
        ensures || FilledBySpan(b0[j], after[j], f, j)
                || (after[j].None? && 0 < j < a)
                || (!spanDone && (after[j] == b0[j] || (after[j].None? && EvictedIn(fs + [f], from, a, j))))
      {
        SpansAppend(fs, from, a, f, j);
        if j < f.first + loaded && after[j].Some? {
          assert FilledBySpan(cur[j], after[j], f, j);
        }
      }
    }

    /**
     * One more span read by a walk: blocks at or after the span start were
     * unchanged or evicted, and every earlier span ends before it.
     */
    lemma RangeResultStep(b0: seq<Option<Block>>, cur: seq<Option<Block>>, after: seq<Option<Block>>,
                          fs: seq<Fetch>, from: nat, a: nat, f: Fetch, loaded: nat, spanDone: bool)
      requires blockDurationNanos > 0
      requires RangeResult(b0, cur, fs, from, true, a)
      requires forall j :: f.first <= j < |cur| ==> cur[j] == b0[j] || (cur[j].None? && EvictedIn(fs, from, a, j))
      requires forall k :: from <= k < |fs| ==> fs[k].last < f.first
      requires f.last < |cur| && SpanResult(cur, after, f, loaded, a)
      requires spanDone ==> loaded == f.last - f.first + 1
      requires !spanDone ==> StoppedAt(after, f, loaded, a)
      ensures RangeResult(b0, after, fs + [f], from, spanDone, a)
      ensures forall j :: f.last < j < |after| ==>
                after[j] == b0[j] || (after[j].None? && EvictedIn(fs + [f], from, a, j))
    {
      RangeOutsideStep(b0, cur, after, fs, from, a, f, loaded);
      RangeSpansStep(b0, cur, after, fs, from, a, f, loaded, spanDone);
      RangeStopStep(after, fs, from, a, f, loaded, spanDone);
    }

    /** A span that stopped early stops the walk, and is its last span. */
    lemma RangeStopStep(after: seq<Option<Block>>, fs: seq<Fetch>, from: nat, a: nat, f: Fetch, loaded: nat, spanDone: bool)
      requires blockDurationNanos > 0 && from <= |fs|
      requires !spanDone ==> StoppedAt(after, f, loaded, a)
      ensures StopsWalk(after, fs + [f], from, spanDone, a)
    {
      assert (fs + [f])[|fs + [f]| - 1] == f;
    }

    constructor (cacheSizeBytes: nat, source: IteratorArgs -> seq<IterResult>, start: nat, end: nat,
                 maxBlocks: nat, minBlockDurationNs: nat)
      requires start <= end && maxBlocks > 0
      requires TotalNs(start, end) <= MaxTotalNs
      ensures Valid() && fresh(blocks)
      ensures this.source == source && this.start == start && this.end == end
      ensures maxCacheSize == cacheSizeBytes
      ensures blockDurationNanos == BlockDuration(TotalNs(start, end), maxBlocks, minBlockDurationNs)
      ensures blocks.Length == BlockCount(TotalNs(start, end), blockDurationNanos)
      ensures blockDurationNanos >= minBlockDurationNs && 1 <= blocks.Length <= maxBlocks
      ensures blocks.Length * blockDurationNanos >= TotalNs(start, end)
      ensures (blocks.Length - 1) * blockDurationNanos < TotalNs(start, end)
      ensures forall i :: 0 <= i < blocks.Length ==> blocks[i].None?
      ensures topics == {} && activeBlockId == 0 && !stopped && !aborted && !notified
      ensures reported == [] && Fetches == []
    {
      this.source := source;
      this.start := start;
      this.end := end;
      maxCacheSize := cacheSizeBytes;
      var totalNs := TotalNs(start, end);
      PartitionSound(totalNs, maxBlocks, minBlockDurationNs);
      blockDurationNanos := BlockDuration(totalNs, maxBlocks, minBlockDurationNs);
      var blockCount := BlockCount(totalNs, BlockDuration(totalNs, maxBlocks, minBlockDurationNs));
      blocks := new Option<Block>[blockCount](_ => None);
      topics := {};
      activeBlockId := 0;
      stopped, aborted, notified := false, false, false;
      reported := [];
      Fetches := [];
      new;
      CacheSizeEmpty(blocks[..]);
    }

    /** Moves the active block to the one holding `time` minus one second; no-op when it is unchanged. */
    method SetActiveTime(time: nat)
      requires Valid()
      modifies this`activeBlockId, this`aborted, this`notified
      ensures Valid()
      ensures var id := ActiveBlockFor(time, start, blockDurationNanos);
        if id == old(activeBlockId)
        then activeBlockId == old(activeBlockId) && aborted == old(aborted) && notified == old(notified)
        else activeBlockId == id && aborted && notified
    {
      var beginBlockId := ActiveBlockFor(time, start, blockDurationNanos);
      if beginBlockId == activeBlockId {
        return;
      }
      aborted := true;
      activeBlockId := beginBlockId;
      notified := true;
    }

    /**
     * Replaces the subscribed topics; no-op when the set is unchanged.
     * Otherwise every allocated block needs the new topics it holds no array for.
     */
    method SetTopics(newTopics: set<Topic>)
      requires Valid()
      modifies this`topics, this`aborted, this`notified, blocks
      ensures Valid()
      ensures newTopics == old(topics) ==>
        && topics == old(topics) && blocks[..] == old(blocks[..])
        && aborted == old(aborted) && notified == old(notified)
      ensures newTopics != old(topics) ==>
        && topics == newTopics && aborted && notified
        && forall i :: 0 <= i < blocks.Length ==> blocks[i] == WithTopics(old(blocks[i]), newTopics)
    {
      if newTopics == topics {
        return;
      }
      aborted := true;
      topics := newTopics;
      notified := true;
      var i := 0;
      while i < blocks.Length
        invariant 0 <= i <= blocks.Length
        invariant topics == newTopics && aborted && notified
        invariant forall j :: 0 <= j < i ==> blocks[j] == WithTopics(old(blocks[j]), newTopics)
        invariant forall j :: i <= j < blocks.Length ==> blocks[j] == old(blocks[j])
      {
        if blocks[i].Some? {
          blocks[i] := WithTopics(blocks[i], newTopics);
        }
        i := i + 1;
      }
      forall j | 0 <= j < blocks.Length
        ensures SizeOf(old(blocks[..])[j]) == SizeOf(blocks[..][j])
      {
        WithTopicsSound(old(blocks[j]), newTopics);
      }
      CacheSizeSameSizes(old(blocks[..]), blocks[..]);
    }

    method StopLoading()
      modifies this`stopped, this`notified
      ensures stopped && notified
    {
      stopped := true;
      notified := true;
    }

    /**
     * calculateProgress: the maximal runs of blocks holding an array for every
     * topic, with a snapshot of the blocks.
     */
    function CalculateProgress(topics: set<Topic>): (p: Progress)
      reads this, blocks
      ensures p.blocks == blocks[..] && p.startTime == start
      ensures WellFormedRuns(p.fullyLoadedRanges, blocks.Length)
      ensures forall j :: 0 <= j < blocks.Length ==>
        (FullyLoaded(blocks[j], topics) <==> Covered(p.fullyLoadedRanges, j))
    {
      LoadedRangesSound(blocks[..], topics);
      Progress(LoadedRanges(blocks[..], topics), blocks[..], start)
    }

    /**
     * A downward scan of evictBlock: from `hi` - 1 down to `lo` + 1, the first
     * allocated block with a non-zero size (indices past the store hold none).
     */
    method ScanDown(lo: nat, hi: nat) returns (found: Option<nat>)
      ensures found == HighestBetween(blocks[..], lo, hi)
    {
      ghost var s := blocks[..];
      var i: int := hi - 1;
      while i > lo
        invariant -1 <= i < hi
        invariant HighestBetween(s, lo, hi) == HighestBetween(s, lo, if i < 0 then 0 else i + 1)
        decreases i
      {
        if i < blocks.Length && Evictable(blocks[i]) {
          return Some(i);
        }
        i := i - 1;
      }
      return None;
    }

    /** The upward scan of evictBlock: from `from` to the end of the store, the first non-empty block. */
    method ScanUp(from: nat) returns (found: Option<nat>)
      ensures found == LowestFrom(blocks[..], from)
    {
      ghost var s := blocks[..];
      var i := from;
      while i < blocks.Length
        invariant from <= i
        invariant LowestFrom(s, from) == LowestFrom(s, i)
        decreases blocks.Length - i
      {
        if Evictable(blocks[i]) {
          return Some(i);
        }
        i := i + 1;
      }
      return None;
    }

    /** Deallocates one non-empty block and returns the size it held. */
    method ClearBlock(i: nat) returns (size: nat)
      requires Valid() && i < blocks.Length && Evictable(blocks[i])
      modifies blocks
      ensures Valid()
      ensures size == SizeOf(old(blocks[i])) && size > 0
      ensures blocks[..] == old(blocks[..])[i := None]
    {
      size := blocks[i].value.sizeInBytes;
      ghost var s := blocks[..];
      blocks[i] := None;
      CacheSizeUpdate(s, i, None);
    }

    /**
     * evictBlock: clears the block EvictionChoice picks for the protected range
     * from `startId` to `endId` and returns its size, or returns 0 and changes
     * nothing.
     */
    method EvictBlock(startId: nat, endId: nat) returns (evictedSize: nat)
      requires Valid()
      modifies blocks
      ensures Valid()
      ensures var c := EvictionChoice(old(blocks[..]), startId, endId);
        && (c.None? ==> evictedSize == 0 && blocks[..] == old(blocks[..]))
        && (c.Some? ==> c.value < blocks.Length && evictedSize == SizeOf(old(blocks[c.value])) && evictedSize > 0
                        && blocks[..] == old(blocks[..])[c.value := None])
    {
      if endId < startId {
        var found := ScanDown(endId, startId);
        if found.Some? {
          evictedSize := ClearBlock(found.value);
          return;
        }
      }
      if endId > startId {
        var found := ScanDown(0, startId);
        if found.Some? {
          evictedSize := ClearBlock(found.value);
          return;
        }
        found := ScanUp(endId + 1);
        if found.Some? {
          evictedSize := ClearBlock(found.value);
          return;
        }
      }
      evictedSize := 0;
    }

    /**
     * The end of the span starting at `blockId`: the following blocks join it
     * while their needTopics (all topics when absent) equal `topicsToFetch`.
     * The search runs to the end of the store, past any range bound.
     */
    method SpanEnd(blockId: nat, topicsToFetch: set<Topic>) returns (endBlockId: nat)
      requires blockId < blocks.Length
      ensures blockId <= endBlockId < blocks.Length
      ensures forall j :: blockId < j <= endBlockId ==> NeedTopicsOf(blocks[j], topics) == topicsToFetch
      ensures endBlockId + 1 < blocks.Length ==> NeedTopicsOf(blocks[endBlockId + 1], topics) != topicsToFetch
    {
      endBlockId := blockId;
      var endIdx := blockId + 1;
      while endIdx < blocks.Length
        invariant blockId < endIdx <= blocks.Length
        invariant endBlockId == endIdx - 1
        invariant forall j :: blockId < j <= endBlockId ==> NeedTopicsOf(blocks[j], topics) == topicsToFetch
      {
        var needTopics := NeedTopicsOf(blocks[endIdx], topics);
        if needTopics != topicsToFetch {
          break;
        }
        endBlockId := endIdx;
        endIdx := endIdx + 1;
      }
    }

    /**
     * The eviction loop of the message loop: while the running total exceeds
     * the budget, evict one block that evictBlock may choose. `pending` is
     * the size of the messages collected but not yet stored.
     */
    method EvictUntilFits(currentBlockId: nat, total: nat, pending: nat) returns (newTotal: nat, fits: bool)
      requires Valid() && currentBlockId < blocks.Length
      requires total == CacheSize(blocks[..]) + pending
      modifies blocks
      ensures Valid()
      ensures blocks[currentBlockId] == old(blocks[currentBlockId])
      ensures EvictsOnly(old(blocks[..]), blocks[..], activeBlockId, currentBlockId)
      ensures blocks[..] == EvictedUntil(old(blocks[..]), activeBlockId, currentBlockId, pending, maxCacheSize)
      ensures newTotal == CacheSize(blocks[..]) + pending
      ensures fits <==> newTotal <= maxCacheSize
      ensures !fits ==> EvictionChoice(blocks[..], activeBlockId, currentBlockId).None?
    {
      newTotal := total;
      while newTotal > maxCacheSize
        invariant Valid()
        invariant EvictedUntil(blocks[..], activeBlockId, currentBlockId, pending, maxCacheSize)
               == EvictedUntil(old(blocks[..]), activeBlockId, currentBlockId, pending, maxCacheSize)
        invariant newTotal == CacheSize(blocks[..]) + pending
        invariant blocks[currentBlockId] == old(blocks[currentBlockId])
        invariant EvictsOnly(old(blocks[..]), blocks[..], activeBlockId, currentBlockId)
        decreases newTotal
      {
        ghost var before := blocks[..];
        var evictedSize := EvictBlock(activeBlockId, currentBlockId);
        EvictionChoiceSound(before, activeBlockId, currentBlockId);
        if evictedSize == 0 {
          return newTotal, false;
        }
        var c := EvictionChoice(before, activeBlockId, currentBlockId).value;
        CacheSizeUpdate(before, c, None);
        newTotal := newTotal - evictedSize;
      }
      fits := true;
    }

    /**
     * The block written after an empty read: the fetched topics get empty
     * arrays over the existing ones, the size is kept, nothing is needed.
     */
    method StoreEmptyRead(currentBlockId: nat, topicsToFetch: set<Topic>)
      requires Valid() && currentBlockId < blocks.Length
      modifies blocks
      ensures Valid()
      ensures blocks[..] == old(blocks[..])[currentBlockId := Some(FilledEmpty(old(blocks[currentBlockId]), topicsToFetch))]
      ensures CacheSize(blocks[..]) == old(CacheSize(blocks[..]))
    {
      var existingBlock := blocks[currentBlockId];
      ghost var before := blocks[..];
      blocks[currentBlockId] := Some(Block(MessagesOf(existingBlock) + EmptyArrays(topicsToFetch),
                                           SizeOf(existingBlock), {}));
      CacheSizeUpdate(before, currentBlockId, blocks[currentBlockId]);
    }

    /**
     * The block written after a non-empty read: the read's arrays over the
     * existing ones, the read's size added, nothing needed.
     */
    method StoreRead(currentBlockId: nat, messagesByTopic: map<Topic, seq<Message>>, sizeInBytes: nat)
      requires Valid() && currentBlockId < blocks.Length
      requires CacheSize(blocks[..]) + sizeInBytes <= maxCacheSize
      modifies blocks
      ensures Valid()
      ensures blocks[..] == old(blocks[..])[currentBlockId :=
        Some(Block(MessagesOf(old(blocks[currentBlockId])) + messagesByTopic,
                   SizeOf(old(blocks[currentBlockId])) + sizeInBytes, {}))]
      ensures CacheSize(blocks[..]) == old(CacheSize(blocks[..])) + sizeInBytes
    {
      var existingBlock := blocks[currentBlockId];
      ghost var before := blocks[..];
      blocks[currentBlockId] := Some(Block(MessagesOf(existingBlock) + messagesByTopic,
                                           SizeOf(existingBlock) + sizeInBytes, {}));
      CacheSizeUpdate(before, currentBlockId, blocks[currentBlockId]);
    }

    /**
     * The message loop of a non-empty read: messages are grouped by topic and
     * their sizes summed (problems are skipped); after each message, blocks
     * are evicted until the cache plus the pending read fits. `fits` is false
     * when no block could be evicted to make room.
     */
    method CollectMessages(currentBlockId: nat, rs: seq<IterResult>, total: nat)
      returns (newTotal: nat, messagesByTopic: map<Topic, seq<Message>>, sizeInBytes: nat, fits: bool)
      requires Valid() && currentBlockId < blocks.Length
      requires total == CacheSize(blocks[..])
      modifies blocks
      ensures Valid()
      ensures blocks[..] == EvictedForRead(old(blocks[..]), activeBlockId, currentBlockId, rs, maxCacheSize)
      ensures fits <==> CacheSize(blocks[..]) + PayloadSize(rs) <= maxCacheSize
      ensures fits ==>
        && messagesByTopic == GroupByTopic(rs)
        && sizeInBytes == PayloadSize(rs)
        && newTotal == CacheSize(blocks[..]) + sizeInBytes
    {
      ghost var s0 := blocks[..];
      newTotal := total;
      messagesByTopic := map[];
      sizeInBytes := 0;
      var i := 0;
      while i < |rs|
        invariant 0 <= i <= |rs|
        invariant Valid()
        invariant messagesByTopic == GroupByTopic(rs[..i])
        invariant sizeInBytes == PayloadSize(rs[..i])
        invariant newTotal == CacheSize(blocks[..]) + sizeInBytes
        invariant newTotal <= maxCacheSize
        invariant blocks[..] == EvictedForRead(s0, activeBlockId, currentBlockId, rs[..i], maxCacheSize)
      {
        newTotal, messagesByTopic, sizeInBytes, fits :=
          CollectResult(currentBlockId, rs, i, newTotal, messagesByTopic, sizeInBytes, s0);
        if !fits {
          EvictedForReadStuck(s0, activeBlockId, currentBlockId, rs, i + 1, maxCacheSize);
          PayloadSizePrefix(rs, i + 1);
          return;
        }
        i := i + 1;
      }
      assert rs[..|rs|] == rs;
      fits := true;
    }

    /**
     * One pass of the message loop, for result `rs[i]`: a problem is skipped;
     * a message is added to its topic's array and to the pending size, and
     * the eviction loop runs. `fits` is false when no block could be evicted
     * to make room.
     */
    method CollectResult(currentBlockId: nat, rs: seq<IterResult>, i: nat, total: nat,
                         grouped: map<Topic, seq<Message>>, pending: nat, ghost s0: seq<Option<Block>>)
      returns (newTotal: nat, messagesByTopic: map<Topic, seq<Message>>, sizeInBytes: nat, fits: bool)
      requires Valid() && currentBlockId < blocks.Length && i < |rs|
      requires grouped == GroupByTopic(rs[..i]) && pending == PayloadSize(rs[..i])
      requires total == CacheSize(blocks[..]) + pending <= maxCacheSize
      requires blocks[..] == EvictedForRead(s0, activeBlockId, currentBlockId, rs[..i], maxCacheSize)
      modifies blocks
      ensures Valid()
      ensures blocks[..] == EvictedForRead(s0, activeBlockId, currentBlockId, rs[..i + 1], maxCacheSize)
      ensures fits ==>
        && messagesByTopic == GroupByTopic(rs[..i + 1])
        && sizeInBytes == PayloadSize(rs[..i + 1])
        && newTotal == CacheSize(blocks[..]) + sizeInBytes <= maxCacheSize
      ensures !fits ==>
        && CacheSize(blocks[..]) + PayloadSize(rs[..i + 1]) > maxCacheSize
        && EvictionChoice(blocks[..], activeBlockId, currentBlockId).None?
    {
      var iterResult := rs[i];
      assert rs[..i + 1][..i] == rs[..i];
      EvictedForReadStep(s0, activeBlockId, currentBlockId, rs, i, maxCacheSize);
      if iterResult.ProblemResult? {
        return total, grouped, pending, true;
      }
      var msg := iterResult.msgEvent;
      var arr := if msg.topic in grouped then grouped[msg.topic] else [];
      newTotal := total + msg.sizeInBytes;
      messagesByTopic := grouped[msg.topic := arr + [msg]];
      sizeInBytes := pending + msg.sizeInBytes;
      newTotal, fits := EvictUntilFits(currentBlockId, newTotal, sizeInBytes);
    }

    /**
     * Handles one readUntil result for block `currentBlockId` of a span read
     * for `topicsToFetch`; `total` is the running cache size.
     */
    method IngestBlock(currentBlockId: nat, topicsToFetch: set<Topic>, results: Option<seq<IterResult>>, total: nat)
      returns (newTotal: nat, outcome: BlockOutcome)
      requires Valid() && currentBlockId < blocks.Length
      requires total == CacheSize(blocks[..])
      modifies blocks
      ensures Valid()
      ensures results.None? ==> outcome == Cancelled && blocks[..] == old(blocks[..])
      ensures results.Some? && |results.value| == 0 ==>
        && outcome == StoredEmpty
        && blocks[..] == old(blocks[..])[currentBlockId := Some(FilledEmpty(old(blocks[currentBlockId]), topicsToFetch))]
      ensures results.Some? && |results.value| > 0 ==>
        var evicted := EvictedForRead(old(blocks[..]), activeBlockId, currentBlockId, results.value, maxCacheSize);
        && (outcome == Stored <==> CacheSize(evicted) + PayloadSize(results.value) <= maxCacheSize)
        && (outcome == Stored ==>
              blocks[..] == evicted[currentBlockId := Some(Filled(old(blocks[currentBlockId]), results.value))])
        && (outcome != Stored ==> outcome == Starved && blocks[..] == evicted)
      ensures outcome == Stored || outcome == StoredEmpty ==>
        blocks[currentBlockId] == Some(Fill(old(blocks[currentBlockId]), results.value, topicsToFetch))
      ensures outcome == Starved ==>
        && blocks[currentBlockId] == old(blocks[currentBlockId])
        && EvictionChoice(blocks[..], activeBlockId, currentBlockId).None?
      ensures forall j :: 0 <= j < blocks.Length && j != currentBlockId ==>
        blocks[j] == old(blocks[j]) || (blocks[j].None? && MayEvict(j, activeBlockId, currentBlockId))
      ensures outcome != Starved ==> newTotal == CacheSize(blocks[..])
    {
      newTotal := total;
      if results.None? {
        return newTotal, Cancelled;
      }
      var rs := results.value;
      if |rs| == 0 {
        StoreEmptyRead(currentBlockId, topicsToFetch);
        return newTotal, StoredEmpty;
      }
      var messagesByTopic, sizeInBytes, fits;
      ghost var before := blocks[..];
      newTotal, messagesByTopic, sizeInBytes, fits := CollectMessages(currentBlockId, rs, total);
      EvictedForReadSound(before, activeBlockId, currentBlockId, rs, maxCacheSize);
      if !fits {
        return newTotal, Starved;
      }
      StoreRead(currentBlockId, messagesByTopic, sizeInBytes);
      return newTotal, Stored;
    }

    /** Coverage by a walk's spans survives later fetches. */
    lemma WalkCoversGrow(before: seq<Option<Block>>, fs: seq<Fetch>, fs': seq<Fetch>, from: nat, lo: nat, hi: nat, done: bool)
      requires fs <= fs'
      requires done ==> WalkCovers(before, fs, from, lo, hi)
      ensures done ==> WalkCovers(before, fs', from, lo, hi)
    {
      if done {
        forall j | lo <= j < hi && j < |before| && !NeedsNothing(before[j])
          ensures exists k :: from <= k < |fs'| && fs'[k].first <= j <= fs'[k].last + 1
        {
          var k :| from <= k < |fs| && fs[k].first <= j <= fs[k].last + 1;
          assert fs'[k] == fs[k];
        }
      }
    }

    /**
     * Coverage of the blocks below the active block by the second walk, stated
     * against the store before the first walk: the first walk's spans all lie
     * at or above the active block, so below it a block needing nothing had
     * needed nothing before.
     */
    lemma WalkCoversLift(b0: seq<Option<Block>>, mid: seq<Option<Block>>, fs1: seq<Fetch>, fs: seq<Fetch>,
                         from: nat, activeId: nat, firstDone: bool, done: bool)
      requires blockDurationNanos > 0
      requires RangeResult(b0, mid, fs1, from, firstDone, activeId)
      requires forall k :: from <= k < |fs1| ==> activeId <= fs1[k].first
      requires fs1 <= fs
      requires done ==> WalkCovers(mid, fs, |fs1|, 0, activeId)
      ensures done ==> WalkCovers(b0, fs, from, 0, activeId)
    {
      if done {
        forall j | 0 <= j < activeId && j < |b0| && !NeedsNothing(b0[j])
          ensures exists k :: from <= k < |fs| && fs[k].first <= j <= fs[k].last + 1
        {
          assert !InSpans(fs1, from, j);
          assert mid[j] == b0[j] || mid[j].None?;
        }
      }
    }

    /**
     * Every span of `fs[from..]` holds its reads in full, except the last one
     * when the walk did not complete (`done`).
     */
    ghost predicate SpansFilled(before: seq<Option<Block>>, after: seq<Option<Block>>, fs: seq<Fetch>, from: nat, done: bool)
      requires blockDurationNanos > 0
    {
      && |before| == |after|
      && (forall k :: from <= k < |fs| ==> fs[k].first <= fs[k].last < |after|)
      && forall k, j :: from <= k < |fs| && (done || k < |fs| - 1) && fs[k].first <= j <= fs[k].last ==>
           FilledBySpan(before[j], after[j], fs[k], j)
    }

    /**
     * The walk from the active block loses nothing it loads: its spans lie at
     * or above the active block, where no read of the walk evicts, so every
     * block of a span it finished holds that span's read.
     */
    lemma FirstWalkFilled(b0: seq<Option<Block>>, mid: seq<Option<Block>>, fs: seq<Fetch>, from: nat, a: nat, done: bool)
      requires blockDurationNanos > 0
      requires RangeResult(b0, mid, fs, from, done, a)
      requires forall k :: from <= k < |fs| ==> a <= fs[k].first
      ensures SpansFilled(b0, mid, fs, from, done)
    {
      forall k, j | from <= k < |fs| && (done || k < |fs| - 1) && fs[k].first <= j <= fs[k].last
        ensures FilledBySpan(b0[j], mid[j], fs[k], j)
      {
        assert SpanKept(b0, mid, fs[k], !done && k == |fs| - 1, fs, from, a);
      }
    }

    /**
     * The effect of one pass of the load loop with block `a` active: the
     * walk from `a` to the end of the store read the spans `fs[f0..split]`,
     * taking the store from `b0` to `mid`; the walk from block 0 to `a` read
     * the spans `fs[split..]`, taking it from `mid` to `after`. Each walk's
     * spans are placed in its range and its blocks hold their reads
     * (RangeResult); the first walk's finished spans are filled in full; and a
     * walk that completed covers its range of `b0`.
     */
    ghost predicate TwoWalks(b0: seq<Option<Block>>, mid: seq<Option<Block>>, after: seq<Option<Block>>, fs: seq<Fetch>,
                             f0: nat, split: nat, a: nat, subscribed: set<Topic>, firstDone: bool, secondDone: bool)
      requires blockDurationNanos > 0
    {
      && f0 <= split <= |fs|
      && SpansPlaced(fs[..split], f0, a, |b0|, |b0|, subscribed)
      && SpansPlaced(fs, split, 0, a, |b0|, subscribed)
      && RangeResult(b0, mid, fs[..split], f0, firstDone, a)
      && RangeResult(mid, after, fs, split, secondDone, a)
      && SpansFilled(b0, mid, fs[..split], f0, firstDone)
      && (firstDone ==> WalkCovers(b0, fs[..split], f0, a, |b0|))
      && (secondDone ==> WalkCovers(b0, fs, f0, 0, a))
      && (firstDone && secondDone ==> WalkCovers(b0, fs, f0, 0, |b0|))
    }

    /** The two walks of a load pass, each as LoadBlockRange states it, make up TwoWalks. */
    lemma TwoWalksLift(b0: seq<Option<Block>>, mid: seq<Option<Block>>, after: seq<Option<Block>>,
                       fs1: seq<Fetch>, fs: seq<Fetch>, f0: nat, a: nat, subscribed: set<Topic>,
                       firstDone: bool, secondDone: bool)
      requires blockDurationNanos > 0 && subscribed != {}
      requires SpansPlaced(fs1, f0, a, |b0|, |mid|, subscribed)
      requires RangeResult(b0, mid, fs1, f0, firstDone, a)
      requires firstDone ==> WalkCovers(b0, fs1, f0, a, |b0|)
      requires fs1 <= fs
      requires SpansPlaced(fs, |fs1|, 0, a, |after|, subscribed)
      requires RangeResult(mid, after, fs, |fs1|, secondDone, a)
      requires secondDone ==> WalkCovers(mid, fs, |fs1|, 0, a)
      ensures TwoWalks(b0, mid, after, fs, f0, |fs1|, a, subscribed, firstDone, secondDone)
    {
      assert fs[..|fs1|] == fs1;
      WalkCoversGrow(b0, fs1, fs, f0, a, |b0|, firstDone);
      WalkCoversLift(b0, mid, fs1, fs, f0, a, firstDone, secondDone);
      FirstWalkFilled(b0, mid, fs1, f0, a, firstDone);
    }

    /**
     * The fetches of a load pass lie within the store and fetch subscribed
     * topics, and the pass never returns above the active block once it has
     * gone below it: the walk from the active block comes first.
     */
    lemma TwoWalksPlaced(b0: seq<Option<Block>>, mid: seq<Option<Block>>, after: seq<Option<Block>>, fs: seq<Fetch>,
                         f0: nat, split: nat, a: nat, subscribed: set<Topic>, firstDone: bool, secondDone: bool)
      requires blockDurationNanos > 0 && subscribed != {}
      requires TwoWalks(b0, mid, after, fs, f0, split, a, subscribed, firstDone, secondDone)
      ensures forall k :: f0 <= k < |fs| ==>
        && fs[k].first <= fs[k].last < |b0|
        && fs[k].topics <= subscribed && fs[k].topics != {}
      ensures forall i, j :: f0 <= i < j < |fs| && fs[i].first < a ==> fs[j].first < a
    {
      forall k | f0 <= k < |fs|
        ensures fs[k].first <= fs[k].last < |b0| && fs[k].topics <= subscribed && fs[k].topics != {}
      {
        if k < split {
          assert fs[..split][k] == fs[k];
        }
      }
      forall i, j | f0 <= i < j < |fs| && fs[i].first < a
        ensures fs[j].first < a
      {
        if i < split {
          assert false;
        }
      }
    }

    /**
     * The state of a walk over [begin, lastBlockId) that has reached `blockId`:
     * its spans `fs[from..]` are placed and end before the block after the
     * last one, their blocks hold their reads, blocks from `blockId` on are
     * unchanged or evicted, and every block before `blockId` is accounted for.
     */
    ghost predicate WalkState(b0: seq<Option<Block>>, cur: seq<Option<Block>>, fs: seq<Fetch>, from: nat, a: nat,
                              begin: nat, lastBlockId: nat, subscribed: set<Topic>, blockId: nat)
      requires blockDurationNanos > 0
    {
      && begin <= blockId
      && SpansPlaced(fs, from, begin, lastBlockId, |cur|, subscribed)
      && (forall k :: from <= k < |fs| ==> fs[k].last + 1 < blockId)
      && RangeResult(b0, cur, fs, from, true, a)
      && (forall j :: blockId <= j < |cur| ==> cur[j] == b0[j] || (cur[j].None? && EvictedIn(fs, from, a, j)))
      && WalkCovers(b0, fs, from, begin, blockId)
    }

    lemma WalkStart(b0: seq<Option<Block>>, fs: seq<Fetch>, a: nat, begin: nat, lastBlockId: nat, subscribed: set<Topic>)
      requires blockDurationNanos > 0
      ensures WalkState(b0, b0, fs, |fs|, a, begin, lastBlockId, subscribed, begin)
    {
      RangeResultStart(b0, fs, a);
    }

    /** The walk passes by a block that needs nothing. */
    lemma WalkSkip(b0: seq<Option<Block>>, cur: seq<Option<Block>>, fs: seq<Fetch>, from: nat, a: nat,
                   begin: nat, lastBlockId: nat, subscribed: set<Topic>, blockId: nat)
      requires blockDurationNanos > 0
      requires WalkState(b0, cur, fs, from, a, begin, lastBlockId, subscribed, blockId)
      requires blockId < |cur| && NeedsNothing(cur[blockId])
      ensures WalkState(b0, cur, fs, from, a, begin, lastBlockId, subscribed, blockId + 1)
    {
    }

    /**
     * The walk reads one span starting at `blockId`; when the span completed
     * the walk goes on after the block that follows it.
     */
    lemma WalkSpan(b0: seq<Option<Block>>, cur: seq<Option<Block>>, after: seq<Option<Block>>, fs: seq<Fetch>, fs': seq<Fetch>,
                   from: nat, a: nat, begin: nat, lastBlockId: nat, subscribed: set<Topic>, blockId: nat, f: Fetch,
                   loaded: nat, spanDone: bool)
      requires blockDurationNanos > 0 && fs' == fs + [f]
      requires WalkState(b0, cur, fs, from, a, begin, lastBlockId, subscribed, blockId)
      requires blockId < lastBlockId && f.first == blockId && f.last < |cur|
      requires f.topics <= subscribed && (subscribed != {} ==> f.topics != {})
      requires SpanResult(cur, after, f, loaded, a)
      requires spanDone ==> loaded == f.last - f.first + 1
      requires !spanDone ==> StoppedAt(after, f, loaded, a)
      ensures SpansPlaced(fs', from, begin, lastBlockId, |after|, subscribed)
      ensures RangeResult(b0, after, fs', from, spanDone, a)
      ensures spanDone ==> WalkState(b0, after, fs', from, a, begin, lastBlockId, subscribed, f.last + 2)
    {
      SpansPlacedAppend(fs, from, f, begin, lastBlockId, |cur|, subscribed);
      RangeResultStep(b0, cur, after, fs, from, a, f, loaded, spanDone);
      WalkCoversExtend(b0, fs, from, begin, blockId, f, f.last + 2);
      forall k | from <= k < |fs'| ensures fs'[k].last + 1 < f.last + 2 {
        if k < |fs| { assert fs'[k] == fs[k]; }
      }
    }

    /** A walk that has passed the end of its range has covered it. */
    lemma WalkEnd(b0: seq<Option<Block>>, cur: seq<Option<Block>>, fs: seq<Fetch>, from: nat, a: nat,
                  begin: nat, lastBlockId: nat, subscribed: set<Topic>, blockId: nat)
      requires blockDurationNanos > 0
      requires WalkState(b0, cur, fs, from, a, begin, lastBlockId, subscribed, blockId)
      requires blockId >= lastBlockId || blockId >= |cur|
      ensures WalkCovers(b0, fs, from, begin, lastBlockId)
    {
    }

    /**
     * One block of a span: the span's cursor is read up to the end of block
     * `currentBlockId` (clamped to the range end), the read is stored by
     * IngestBlock, and a non-empty stored read is followed by a progress
     * report. `stored` is false when the read could not be admitted: the
     * store is then left as the evictions made for the read left it (this
     * cursor never reports cancellation).
     */
    method LoadSpanBlock(cursor: IteratorCursor, currentBlockId: nat, topicsToFetch: set<Topic>, total: nat)
      returns (newTotal: nat, stored: bool, ghost results: seq<IterResult>)
      requires Valid() && cursor.Valid() && currentBlockId < blocks.Length
      requires total == CacheSize(blocks[..])
      modifies blocks, this`reported, cursor`pos, cursor`lastIteratorResult
      ensures Valid() && cursor.Valid() && cursor.stream == old(cursor.stream)
      ensures var step := ReadUntilStep(cursor.stream, old(cursor.State()),
                                        Clamp(BlockEnd(start, blockDurationNanos, currentBlockId), start, end));
        results == step.0 && cursor.State() == step.1
      ensures var ev := EvictedForRead(old(blocks[..]), activeBlockId, currentBlockId, results, maxCacheSize);
        && (stored <==> CacheSize(ev) + PayloadSize(results) <= maxCacheSize)
        && blocks[..] == if stored then ev[currentBlockId := Some(Fill(old(blocks[currentBlockId]), results, topicsToFetch))]
                         else ev
      ensures BlockStep(old(blocks[..]), blocks[..], activeBlockId, currentBlockId,
                        if stored then Some(Fill(old(blocks[currentBlockId]), results, topicsToFetch))
                        else old(blocks[currentBlockId]))
      ensures !stored ==>
        && |results| > 0
        && CacheSize(blocks[..]) + PayloadSize(results) > maxCacheSize
        && EvictionChoice(blocks[..], activeBlockId, currentBlockId).None?
      ensures stored ==> newTotal == CacheSize(blocks[..])
      ensures stored && |results| > 0 ==> reported == old(reported) + [CalculateProgress(topics)]
      ensures !(stored && |results| > 0) ==> reported == old(reported)
      ensures old(reported) <= reported
      ensures |reported| == |old(reported)| + (if stored && |results| > 0 then 1 else 0)
    {
      var untilTime := Clamp(BlockEnd(start, blockDurationNanos, currentBlockId), start, end);
      var rs := cursor.ReadUntil(untilTime);
      results := rs;
      var outcome;
      newTotal, outcome := IngestBlock(currentBlockId, topicsToFetch, Some(rs), total);
      if outcome == Cancelled || outcome == Starved {
        return newTotal, false, results;
      }
      if outcome == Stored {
        reported := reported + [CalculateProgress(topics)];
      }
      stored := true;
    }

    /**
     * The state of a span read after `loaded` blocks: the cursor is positioned
     * for the remaining reads of the span, the blocks read so far hold their
     * reads (or were evicted), and one report was made per non-empty read.
     */
    ghost predicate SpanLoop(cursor: IteratorCursor, b0: seq<Option<Block>>, r0: seq<Progress>, f: Fetch, loaded: nat)
      reads this, blocks, cursor
    {
      && Valid() && cursor.Valid()
      && f.last < blocks.Length
      && SpanFacts(cursor.stream, cursor.State(), blocks[..], reported, b0, r0, f, loaded, activeBlockId)
    }

    /** SpanLoop on values: the cursor's stream and state, the blocks and the reports. */
    ghost predicate SpanFacts(stream: seq<IterResult>, st: CursorState, cur: seq<Option<Block>>, rep: seq<Progress>,
                              b0: seq<Option<Block>>, r0: seq<Progress>, f: Fetch, loaded: nat, a: nat)
    {
      && blockDurationNanos > 0
      && st.pos <= |stream|
      && f.first <= f.last
      && f.first + loaded <= f.last + 1
      && Reads(stream, st, UntilTimes(f.first, f.last)[loaded..]) == SpanReads(f)[loaded..]
      && SpanResult(b0, cur, f, loaded, a)
      && r0 <= rep
      && |rep| == |r0| + NonEmptyCount(SpanReads(f)[..loaded])
    }

    /** One block of a span read and stored: the next read, its storage and its report. */
    lemma SpanFactsStep(stream: seq<IterResult>, st: CursorState, cur: seq<Option<Block>>, rep: seq<Progress>,
                        b0: seq<Option<Block>>, r0: seq<Progress>, f: Fetch, k: nat, a: nat,
                        results: seq<IterResult>, st': CursorState, after: seq<Option<Block>>, rep': seq<Progress>)
      requires SpanFacts(stream, st, cur, rep, b0, r0, f, k, a) && f.first + k <= f.last && f.first + k < |cur|
      requires results == ReadUntilStep(stream, st, UntilTimes(f.first, f.last)[k]).0
      requires st' == ReadUntilStep(stream, st, UntilTimes(f.first, f.last)[k]).1
      requires BlockStep(cur, after, a, f.first + k, Some(Fill(cur[f.first + k], results, f.topics)))
      requires rep <= rep' && |rep'| == |rep| + (if |results| > 0 then 1 else 0)
      ensures SpanFacts(stream, st', after, rep', b0, r0, f, k + 1, a)
    {
      var ends := UntilTimes(f.first, f.last);
      var outputs := SpanReads(f);
      ReadsStep(stream, st, ends, k, outputs);
      SpanResultStep(b0, cur, after, f, k, a, f.first + k, outputs[k], true);
      assert outputs[..k + 1][..k] == outputs[..k];
    }

    /**
     * A block of a span whose read could not be admitted: the span stops
     * there, with the blocks before it read and stored.
     */
    lemma SpanStopped(stream: seq<IterResult>, st: CursorState, cur: seq<Option<Block>>, rep: seq<Progress>,
                      b0: seq<Option<Block>>, r0: seq<Progress>, f: Fetch, k: nat, a: nat,
                      results: seq<IterResult>, after: seq<Option<Block>>)
      requires SpanFacts(stream, st, cur, rep, b0, r0, f, k, a) && f.first + k <= f.last && f.first + k < |cur|
      requires results == ReadUntilStep(stream, st, UntilTimes(f.first, f.last)[k]).0
      requires BlockStep(cur, after, a, f.first + k, cur[f.first + k])
      requires |results| > 0 && CacheSize(after) + PayloadSize(results) > maxCacheSize
      requires EvictionChoice(after, a, f.first + k).None?
      ensures SpanResult(b0, after, f, k, a) && StoppedAt(after, f, k, a)
    {
      var outputs := SpanReads(f);
      ReadsStep(stream, st, UntilTimes(f.first, f.last), k, outputs);
      SpanResultStep(b0, cur, after, f, k, a, f.first + k, outputs[k], false);
    }

    /**
     * One iteration of the span loop: LoadSpanBlock for the block
     * `loaded` blocks into span `f`, carrying SpanLoop over it, or the reason
     * the span stops there.
     */
    method SpanStep(cursor: IteratorCursor, currentBlockId: nat, topicsToFetch: set<Topic>, total: nat,
                    ghost f: Fetch, ghost b0: seq<Option<Block>>, ghost r0: seq<Progress>, ghost loaded: nat)
      returns (newTotal: nat, stored: bool)
      requires SpanLoop(cursor, b0, r0, f, loaded)
      requires currentBlockId == f.first + loaded <= f.last && topicsToFetch == f.topics
      requires total == CacheSize(blocks[..])
      modifies blocks, this`reported, cursor`pos, cursor`lastIteratorResult
      ensures stored ==> SpanLoop(cursor, b0, r0, f, loaded + 1) && newTotal == CacheSize(blocks[..])
      ensures !stored ==>
        && Valid()
        && SpanResult(b0, blocks[..], f, loaded, activeBlockId)
        && StoppedAt(blocks[..], f, loaded, activeBlockId)
        && r0 <= reported && |reported| == |r0| + NonEmptyCount(SpanReads(f)[..loaded])
    {
      ghost var st := cursor.State();
      ghost var before := blocks[..];
      ghost var rep := reported;
      assert UntilTimes(f.first, f.last)[loaded] == Clamp(BlockEnd(start, blockDurationNanos, currentBlockId), start, end);
      ghost var results;
      newTotal, stored, results := LoadSpanBlock(cursor, currentBlockId, topicsToFetch, total);
      if !stored {
        SpanStopped(cursor.stream, st, before, rep, b0, r0, f, loaded, activeBlockId, results, blocks[..]);
      } else {
        SpanFactsStep(cursor.stream, st, before, rep, b0, r0, f, loaded, activeBlockId,
                      results, cursor.State(), blocks[..], reported);
      }
    }

    /**
     * The read of one span: a single cursor from the start of block `blockId`
     * to the end of block `endBlockId` (clamped to the range end), read block
     * by block by LoadSpanBlock. `loaded` counts the blocks read and stored;
     * `completed` is false when a read was cancelled or could not be
     * admitted, and the cursor is then left open.
     */
    method LoadSpan(blockId: nat, endBlockId: nat, topicsToFetch: set<Topic>, total: nat)
      returns (newTotal: nat, completed: bool, ghost loaded: nat)
      requires Valid() && blockId <= endBlockId < blocks.Length
      requires total == CacheSize(blocks[..])
      modifies blocks, this`reported
      ensures Valid()
      ensures completed ==> newTotal == CacheSize(blocks[..])
      ensures SpanResult(old(blocks[..]), blocks[..], Fetch(blockId, endBlockId, topicsToFetch), loaded, activeBlockId)
      ensures completed ==> loaded == endBlockId - blockId + 1
      ensures !completed ==> StoppedAt(blocks[..], Fetch(blockId, endBlockId, topicsToFetch), loaded, activeBlockId)
      ensures old(reported) <= reported
      ensures |reported| == |old(reported)| + NonEmptyCount(SpanReads(Fetch(blockId, endBlockId, topicsToFetch))[..loaded])
    {
      ghost var f := Fetch(blockId, endBlockId, topicsToFetch);
      ghost var b0 := blocks[..];
      ghost var r0 := reported;
      newTotal := total;
      loaded := 0;
      var cursorStartTime := BlockStart(start, blockDurationNanos, blockId);
      var cursorEndTime := Clamp(BlockEnd(start, blockDurationNanos, endBlockId), start, end);
      var cursor := new IteratorCursor(source(IteratorArgs(topicsToFetch, cursorStartTime, cursorEndTime)));
      assert UntilTimes(blockId, endBlockId)[0..] == UntilTimes(blockId, endBlockId);
      assert SpanReads(f)[0..] == SpanReads(f);
      var currentBlockId := blockId;
      while currentBlockId <= endBlockId
        invariant blockId <= currentBlockId <= endBlockId + 1
        invariant loaded == currentBlockId - blockId
        invariant SpanLoop(cursor, b0, r0, f, loaded)
        invariant newTotal == CacheSize(blocks[..])
        decreases endBlockId + 1 - currentBlockId
      {
        var stored;
        newTotal, stored := SpanStep(cursor, currentBlockId, topicsToFetch, newTotal, f, b0, r0, loaded);
        if !stored {
          return newTotal, false, loaded;
        }
        currentBlockId := currentBlockId + 1;
        loaded := loaded + 1;
      }
      cursor.End();
      completed := true;
    }

    /**
     * One span of loadBlockRange, for a block that needs some topics: the
     * topics it needs (all subscribed topics when absent) are fetched through
     * one cursor for it and the following blocks that need the same topics.
     */
    method FetchSpan(blockId: nat, total: nat)
      returns (endBlockId: nat, newTotal: nat, completed: bool, ghost f: Fetch, ghost loaded: nat)
      requires Valid() && blockId < blocks.Length
      requires total == CacheSize(blocks[..])
      modifies blocks, this`reported, this`Fetches
      ensures Valid()
      ensures blockId <= endBlockId < blocks.Length
      ensures f == Fetch(blockId, endBlockId, NeedTopicsOf(old(blocks[blockId]), topics))
      ensures Fetches == old(Fetches) + [f]
      ensures f.topics <= topics && (topics != {} && !NeedsNothing(old(blocks[blockId])) ==> f.topics != {})
      ensures forall j :: blockId < j <= endBlockId ==> NeedTopicsOf(old(blocks[j]), topics) == f.topics
      ensures endBlockId + 1 < blocks.Length ==> NeedTopicsOf(old(blocks[endBlockId + 1]), topics) != f.topics
      ensures SpanResult(old(blocks[..]), blocks[..], f, loaded, activeBlockId)
      ensures completed ==> loaded == endBlockId - blockId + 1
      ensures !completed ==> StoppedAt(blocks[..], f, loaded, activeBlockId)
      ensures old(reported) <= reported
      ensures |reported| == |old(reported)| + NonEmptyCount(SpanReads(f)[..loaded])
      ensures completed ==> newTotal == CacheSize(blocks[..])
    {
      var topicsToFetch := NeedTopicsOf(blocks[blockId], topics);
      endBlockId := SpanEnd(blockId, topicsToFetch);
      f := Fetch(blockId, endBlockId, topicsToFetch);
      Fetches := Fetches + [f];
      newTotal, completed, loaded := LoadSpan(blockId, endBlockId, topicsToFetch, total);
    }

    /**
     * One step of loadBlockRange's walk at a block `blockId` that needs some
     * topics: one span is fetched from it, and the walk goes on after the
     * block that follows the span. `completed` is false when the span's read
     * stopped early.
     */
    method WalkBlock(blockId: nat, total: nat, ghost b0: seq<Option<Block>>, ghost from: nat,
                     ghost begin: nat, ghost lastBlockId: nat)
      returns (next: nat, newTotal: nat, completed: bool)
      requires Valid() && blockId < blocks.Length && blockId < lastBlockId
      requires total == CacheSize(blocks[..])
      requires WalkState(b0, blocks[..], Fetches, from, activeBlockId, begin, lastBlockId, topics, blockId)
      requires !NeedsNothing(blocks[blockId])
      modifies blocks, this`reported, this`Fetches
      ensures Valid()
      ensures old(reported) <= reported
      ensures old(Fetches) <= Fetches
      ensures SpansPlaced(Fetches, from, begin, lastBlockId, blocks.Length, topics)
      ensures RangeResult(b0, blocks[..], Fetches, from, completed, activeBlockId)
      ensures completed ==>
        && blockId < next && newTotal == CacheSize(blocks[..])
        && WalkState(b0, blocks[..], Fetches, from, activeBlockId, begin, lastBlockId, topics, next)
    {
      ghost var before := blocks[..];
      ghost var fs := Fetches;
      var endBlockId;
      ghost var f, loaded;
      endBlockId, newTotal, completed, f, loaded := FetchSpan(blockId, total);
      WalkSpan(b0, before, blocks[..], fs, Fetches, from, activeBlockId, begin, lastBlockId, topics, blockId, f, loaded, completed);
      next := endBlockId + 1;
      next := next + 1;
    }

    /**
     * loadBlockRange: walks blocks beginBlockId..lastBlockId-1 (bounded by the
     * store), skipping blocks that need nothing; for any other block it opens
     * one cursor over the span of following blocks that need the same topics
     * and stores each block's read. After a span the walk skips the block
     * that ended it. A cancelled read, or one no eviction can make room for,
     * ends the walk without closing the cursor; `completed` is false then.
     */
    method LoadBlockRange(beginBlockId: nat, lastBlockId: nat) returns (completed: bool)
      requires Valid()
      modifies blocks, this`reported, this`Fetches
      ensures Valid()
      ensures old(reported) <= reported
      ensures old(Fetches) <= Fetches
      ensures SpansPlaced(Fetches, |old(Fetches)|, beginBlockId, lastBlockId, blocks.Length, topics)
      ensures RangeResult(old(blocks[..]), blocks[..], Fetches, |old(Fetches)|, completed, activeBlockId)
      ensures completed ==> WalkCovers(old(blocks[..]), Fetches, |old(Fetches)|, beginBlockId, lastBlockId)
    {
      var totalBlockSizeBytes := CacheSize(blocks[..]);
      var last := if lastBlockId < blocks.Length then lastBlockId else blocks.Length;
      var blockId := beginBlockId;
      ghost var f0 := |Fetches|;
      ghost var b0 := blocks[..];
      WalkStart(b0, Fetches, activeBlockId, beginBlockId, lastBlockId, topics);
      while blockId < last
        invariant Valid()
        invariant totalBlockSizeBytes == CacheSize(blocks[..])
        invariant old(reported) <= reported
        invariant old(Fetches) <= Fetches && f0 == |old(Fetches)|
        invariant WalkState(b0, blocks[..], Fetches, f0, activeBlockId, beginBlockId, lastBlockId, topics, blockId)
        decreases last - blockId
      {
        var existingBlock := blocks[blockId];
        if existingBlock.Some? && existingBlock.value.needTopics == {} {
          WalkSkip(b0, blocks[..], Fetches, f0, activeBlockId, beginBlockId, lastBlockId, topics, blockId);
          blockId := blockId + 1;
        } else {
          var next, done;
          next, totalBlockSizeBytes, done := WalkBlock(blockId, totalBlockSizeBytes, b0, f0, beginBlockId, lastBlockId);
          if !done {
            return false;
          }
          blockId := next;
        }
      }
      WalkEnd(b0, blocks[..], Fetches, f0, activeBlockId, beginBlockId, lastBlockId, topics, blockId);
      completed := true;
    }

    /**
     * One pass of the load loop: with no topics it reports progress and loads
     * nothing; otherwise it walks from the active block to the end of the
     * store and then, when the active block is not the first, from the first
     * block up to the active one. `mid` is the store between the two walks,
     * `split` the first fetch of the second walk, and `firstDone` and
     * `secondDone` say whether each walk ran to its end.
     */
    method Load() returns (ghost mid: seq<Option<Block>>, ghost split: nat, ghost firstDone: bool, ghost secondDone: bool)
      requires Valid()
      modifies blocks, this`reported, this`Fetches
      ensures Valid()
      ensures topics == {} ==>
        && blocks[..] == old(blocks[..]) && Fetches == old(Fetches)
        && reported == old(reported) + [CalculateProgress(topics)]
      ensures old(reported) <= reported
      ensures old(Fetches) <= Fetches
      ensures blocks.Length == 0 ==> Fetches == old(Fetches)
      ensures topics != {} && blocks.Length > 0 ==>
        TwoWalks(old(blocks[..]), mid, blocks[..], Fetches, |old(Fetches)|, split, activeBlockId, topics, firstDone, secondDone)
    {
      mid, split, firstDone, secondDone := blocks[..], |Fetches|, true, true;
      if topics == {} {
        reported := reported + [CalculateProgress(topics)];
        return;
      }
      if blocks.Length == 0 {
        return;
      }
      ghost var f0 := |Fetches|;
      ghost var b0 := blocks[..];
      firstDone := LoadBlockRange(activeBlockId, blocks.Length);
      mid, split := blocks[..], |Fetches|;
      ghost var fs1 := Fetches;
      if activeBlockId > 0 {
        secondDone := LoadBlockRange(0, activeBlockId);
      } else {
        RangeResultStart(mid, Fetches, activeBlockId);
      }
      TwoWalksLift(b0, mid, blocks[..], fs1, Fetches, f0, activeBlockId, topics, firstDone, secondDone);
    }
  }
}
