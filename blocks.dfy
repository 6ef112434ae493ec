/**
 * The block store of the BlockLoader (BlockLoader.ts) as values: cache
 * blocks, the byte total, the eviction choice, the progress runs and the way a
 * block is filled from a cursor read.
 */
module BlockStore {
  import opened Wrappers
  import opened Messages

  /**
   * A cache block: messages per topic in arrival order, their byte size, and
   * the subscribed topics still to be fetched for this block.
   */
  datatype Block = Block(messagesByTopic: map<Topic, seq<Message>>, sizeInBytes: nat, needTopics: set<Topic>)

  /** Bytes held by an optional block (an absent block holds none). */
  function SizeOf(b: Option<Block>): nat {
    if b.Some? then b.value.sizeInBytes else 0
  }

  /** The messages of an optional block (an absent block holds none). */
  function MessagesOf(b: Option<Block>): map<Topic, seq<Message>> {
    if b.Some? then b.value.messagesByTopic else map[]
  }

  /** `block?.needTopics ?? topics`: an absent block needs every subscribed topic. */
  function NeedTopicsOf(b: Option<Block>, topics: set<Topic>): set<Topic> {
    if b.Some? then b.value.needTopics else topics
  }

  /** cacheSize: the sum of sizeInBytes over the allocated blocks. */
  function CacheSize(s: seq<Option<Block>>): nat {
    if |s| == 0 then 0 else SizeOf(s[0]) + CacheSize(s[1..])
  }

  /** Replacing one block changes the total by exactly the difference of the two sizes. */
  lemma {:induction false} CacheSizeUpdate(s: seq<Option<Block>>, i: nat, v: Option<Block>)
    requires i < |s|
    ensures CacheSize(s[i := v]) + SizeOf(s[i]) == CacheSize(s) + SizeOf(v)
  {
    if i == 0 {
      assert s[i := v][1..] == s[1..];
    } else {
      CacheSizeUpdate(s[1..], i - 1, v);
      assert s[i := v][1..] == s[1..][i - 1 := v];
    }
  }

  /** A store of absent blocks holds nothing. */
  lemma {:induction false} CacheSizeEmpty(s: seq<Option<Block>>)
    requires forall i :: 0 <= i < |s| ==> s[i].None?
    ensures CacheSize(s) == 0
  {
    if |s| > 0 {
      CacheSizeEmpty(s[1..]);
    }
  }

  /** Stores whose blocks have the same sizes, index by index, have the same total. */
  lemma {:induction false} CacheSizeSameSizes(a: seq<Option<Block>>, b: seq<Option<Block>>)
    requires |a| == |b|
    requires forall i :: 0 <= i < |a| ==> SizeOf(a[i]) == SizeOf(b[i])
    ensures CacheSize(a) == CacheSize(b)
  {
    if |a| > 0 {
      CacheSizeSameSizes(a[1..], b[1..]);
    }
  }

  // ---- eviction (evictBlock)

  /** evictBlock skips absent blocks and blocks of size 0. */
  predicate Evictable(b: Option<Block>) {
    b.Some? && b.value.sizeInBytes > 0
  }

  /**
   * The indices evictBlock scans when protecting the range from `startId`
   * (the active block) to `endId` (the block being loaded): strictly between
   * them when loading behind the active block; below `startId` but above 0, or
   * above `endId`, when loading ahead of it; none when they are equal.
   */
  predicate MayEvict(j: nat, startId: nat, endId: nat) {
    if endId < startId then endId < j < startId
    else if endId > startId then 0 < j < startId || endId < j
    else false
  }

  /** The highest evictable index strictly between `lo` and `hi`, scanning down from hi - 1. */
  function HighestBetween(s: seq<Option<Block>>, lo: nat, hi: nat): (r: Option<nat>)
    ensures r.Some? ==> lo < r.value < hi && r.value < |s| && Evictable(s[r.value])
    ensures r.Some? ==> forall j :: r.value < j < hi && j < |s| ==> !Evictable(s[j])
    ensures r.None? ==> forall j :: lo < j < hi && j < |s| ==> !Evictable(s[j])
    decreases hi
  {
    if hi <= lo + 1 then None
    else if hi - 1 < |s| && Evictable(s[hi - 1]) then Some(hi - 1)
    else HighestBetween(s, lo, hi - 1)
  }

  /** The lowest evictable index at or above `from`, scanning up to the end. */
  function LowestFrom(s: seq<Option<Block>>, from: nat): (r: Option<nat>)
    ensures r.Some? ==> from <= r.value < |s| && Evictable(s[r.value])
    ensures r.Some? ==> forall j :: from <= j < r.value ==> !Evictable(s[j])
    ensures r.None? ==> forall j :: from <= j < |s| ==> !Evictable(s[j])
    decreases |s| - from
  {
    if from >= |s| then None
    else if Evictable(s[from]) then Some(from)
    else LowestFrom(s, from + 1)
  }

  /** The block evictBlock clears, if any. */
  function EvictionChoice(s: seq<Option<Block>>, startId: nat, endId: nat): Option<nat> {
    if endId < startId then HighestBetween(s, endId, startId)
    else if endId > startId then
      var below := HighestBetween(s, 0, startId);
      if below.Some? then below else LowestFrom(s, endId + 1)
    else None
  }

  /**
   * evictBlock clears a non-empty block, never the active block nor the block
   * being loaded; loading ahead it never clears block 0 nor anything in
   * [startId, endId]; loading behind it clears only blocks strictly between
   * the two; and it finds nothing only when no scanned block is non-empty.
   */
  lemma EvictionChoiceSound(s: seq<Option<Block>>, startId: nat, endId: nat)
    ensures var c := EvictionChoice(s, startId, endId);
      && (c.Some? ==> c.value < |s| && Evictable(s[c.value]) && MayEvict(c.value, startId, endId))
      && (c.Some? ==> c.value != startId && c.value != endId)
      && (c.Some? && endId > startId ==> c.value != 0 && !(startId <= c.value <= endId))
      && (c.Some? && endId < startId ==> endId < c.value < startId)
      && (c.None? <==> forall j :: 0 <= j < |s| && MayEvict(j, startId, endId) ==> !Evictable(s[j]))
  {
    var c := EvictionChoice(s, startId, endId);
    if c.Some? {
      assert 0 <= c.value < |s| && MayEvict(c.value, startId, endId) && Evictable(s[c.value]);
    }
  }

  /**
   * Scan order: behind the active block, the highest non-empty index below
   * it; ahead of it, the highest non-empty index in (0, startId) and only when
   * there is none, the lowest non-empty index above `endId`.
   */
  lemma EvictionOrder(s: seq<Option<Block>>, startId: nat, endId: nat)
    ensures var c := EvictionChoice(s, startId, endId);
      && (endId < startId && c.Some? ==> forall j :: c.value < j < startId && j < |s| ==> !Evictable(s[j]))
      && (endId > startId && c.Some? && c.value < startId ==>
            forall j :: c.value < j < startId && j < |s| ==> !Evictable(s[j]))
      && (endId > startId && c.Some? && c.value > endId ==>
            (forall j :: 0 < j < startId && j < |s| ==> !Evictable(s[j])) &&
            (forall j :: endId < j < c.value ==> !Evictable(s[j])))
  {
  }

  /** Between `before` and `after` only blocks that evictBlock may scan were cleared. */
  ghost predicate EvictsOnly(before: seq<Option<Block>>, after: seq<Option<Block>>, startId: nat, endId: nat) {
    && |before| == |after|
    && forall j :: 0 <= j < |after| ==> after[j] == before[j] || (after[j].None? && MayEvict(j, startId, endId))
  }

  lemma EvictsOnlyTrans(a: seq<Option<Block>>, b: seq<Option<Block>>, c: seq<Option<Block>>, startId: nat, endId: nat)
    requires EvictsOnly(a, b, startId, endId) && EvictsOnly(b, c, startId, endId)
    ensures EvictsOnly(a, c, startId, endId)
  {
  }

  /**
   * The eviction loop run on values: while the cache plus `pending` bytes
   * exceeds the budget, clear the block evictBlock chooses; stop as soon as it
   * fits, or when there is nothing left to choose.
   */
  ghost function EvictedUntil(s: seq<Option<Block>>, startId: nat, endId: nat, pending: nat, budget: nat): (r: seq<Option<Block>>)
    ensures |r| == |s|
    decreases CacheSize(s)
  {
    if CacheSize(s) + pending <= budget then s
    else
      var c := EvictionChoice(s, startId, endId);
      if c.None? then s
      else
        EvictionChoiceSound(s, startId, endId);
        CacheSizeUpdate(s, c.value, None);
        EvictedUntil(s[c.value := None], startId, endId, pending, budget)
  }

  /**
   * Eviction changes nothing when the cache already fits; otherwise it clears
   * only blocks evictBlock may scan, and ends within the budget or with
   * nothing left to evict.
   */
  lemma {:induction false} EvictedUntilSound(s: seq<Option<Block>>, startId: nat, endId: nat, pending: nat, budget: nat)
    ensures var r := EvictedUntil(s, startId, endId, pending, budget);
      && EvictsOnly(s, r, startId, endId)
      && CacheSize(r) <= CacheSize(s)
      && (CacheSize(r) + pending <= budget || EvictionChoice(r, startId, endId).None?)
      && (CacheSize(s) + pending <= budget ==> r == s)
    decreases CacheSize(s)
  {
    if CacheSize(s) + pending > budget {
      var c := EvictionChoice(s, startId, endId);
      if c.Some? {
        EvictionChoiceSound(s, startId, endId);
        CacheSizeUpdate(s, c.value, None);
        var s' := s[c.value := None];
        EvictedUntilSound(s', startId, endId, pending, budget);
        EvictsOnlyTrans(s, s', EvictedUntil(s', startId, endId, pending, budget), startId, endId);
      }
    }
  }

  /**
   * The blocks left by the message loop over one read: after each message,
   * the eviction loop runs with the read's bytes so far pending.
   */
  ghost function EvictedForRead(s: seq<Option<Block>>, startId: nat, endId: nat, rs: seq<IterResult>, budget: nat): (r: seq<Option<Block>>)
    ensures |r| == |s|
    decreases |rs|
  {
    if |rs| == 0 then s
    else
      var before := EvictedForRead(s, startId, endId, rs[..|rs| - 1], budget);
      if rs[|rs| - 1].ProblemResult? then before
      else EvictedUntil(before, startId, endId, PayloadSize(rs), budget)
  }

  /** The message loop after one more result of the read. */
  lemma EvictedForReadStep(s: seq<Option<Block>>, startId: nat, endId: nat, rs: seq<IterResult>, i: nat, budget: nat)
    requires i < |rs|
    ensures EvictedForRead(s, startId, endId, rs[..i + 1], budget)
         == if rs[i].ProblemResult? then EvictedForRead(s, startId, endId, rs[..i], budget)
            else EvictedUntil(EvictedForRead(s, startId, endId, rs[..i], budget), startId, endId, PayloadSize(rs[..i + 1]), budget)
  {
    assert rs[..i + 1][..i] == rs[..i];
  }

  /**
   * The message loop clears only blocks evictBlock may scan, never the block
   * being loaded, and admits the whole read exactly when the cache plus the
   * read fits the budget at the end.
   */
  lemma {:induction false} EvictedForReadSound(s: seq<Option<Block>>, startId: nat, endId: nat, rs: seq<IterResult>, budget: nat)
    requires CacheSize(s) <= budget
    ensures var r := EvictedForRead(s, startId, endId, rs, budget);
      && EvictsOnly(s, r, startId, endId)
      && CacheSize(r) <= CacheSize(s)
      && (CacheSize(r) + PayloadSize(rs) <= budget || EvictionChoice(r, startId, endId).None?)
    decreases |rs|
  {
    if |rs| > 0 {
      var rs' := rs[..|rs| - 1];
      var before := EvictedForRead(s, startId, endId, rs', budget);
      EvictedForReadSound(s, startId, endId, rs', budget);
      if rs[|rs| - 1].ProblemResult? {
        assert PayloadSize(rs) == PayloadSize(rs');
      } else {
        EvictedUntilSound(before, startId, endId, PayloadSize(rs), budget);
        EvictsOnlyTrans(s, before, EvictedForRead(s, startId, endId, rs, budget), startId, endId);
      }
    }
  }

  /** Once nothing is left to evict, the rest of the read evicts nothing more. */
  lemma {:induction false} EvictedForReadStuck(s: seq<Option<Block>>, startId: nat, endId: nat, rs: seq<IterResult>, k: nat, budget: nat)
    requires k <= |rs|
    requires EvictionChoice(EvictedForRead(s, startId, endId, rs[..k], budget), startId, endId).None?
    ensures EvictedForRead(s, startId, endId, rs, budget) == EvictedForRead(s, startId, endId, rs[..k], budget)
    decreases |rs| - k
  {
    if k == |rs| {
      assert rs[..k] == rs;
    } else {
      var rs' := rs[..|rs| - 1];
      assert rs'[..k] == rs[..k];
      EvictedForReadStuck(s, startId, endId, rs', k, budget);
    }
  }

  // ---- progress (calculateProgress)

  /** A block is fully loaded for `topics` when it is allocated and holds a (possibly empty) array for each. */
  predicate FullyLoaded(b: Option<Block>, topics: set<Topic>) {
    b.Some? && topics <= b.value.messagesByTopic.Keys
  }

  /** A run of block indices [start, end). */
  datatype Range = Range(start: nat, end: nat)

  predicate InRange(r: Range, i: nat) {
    r.start <= i < r.end
  }

  /** Runs are non-empty, within [0, n), in increasing order and separated by at least one index. */
  predicate WellFormedRuns(rs: seq<Range>, n: nat) {
    && (forall k :: 0 <= k < |rs| ==> rs[k].start < rs[k].end <= n)
    && (forall k :: 0 <= k < |rs| - 1 ==> rs[k].end < rs[k + 1].start)
  }

  /** The end of the run of fully loaded blocks starting at i. */
  function RunEnd(s: seq<Option<Block>>, topics: set<Topic>, i: nat): (e: nat)
    requires i <= |s|
    ensures i <= e <= |s|
    ensures forall j :: i <= j < e ==> FullyLoaded(s[j], topics)
    ensures e < |s| ==> !FullyLoaded(s[e], topics)
    decreases |s| - i
  {
    if i == |s| || !FullyLoaded(s[i], topics) then i else RunEnd(s, topics, i + 1)
  }

  /** The maximal runs of fully loaded blocks at or after index i. */
  function RunsFrom(s: seq<Option<Block>>, topics: set<Topic>, i: nat): seq<Range>
    requires i <= |s|
    decreases |s| - i
  {
    if i == |s| then []
    else if !FullyLoaded(s[i], topics) then RunsFrom(s, topics, i + 1)
    else
      var e := RunEnd(s, topics, i);
      [Range(i, e)] + RunsFrom(s, topics, e)
  }

  /** The fully loaded ranges that calculateProgress reports, as block-index runs. */
  function LoadedRanges(s: seq<Option<Block>>, topics: set<Topic>): seq<Range> {
    RunsFrom(s, topics, 0)
  }

  /** Some run contains index j. */
  predicate Covered(rs: seq<Range>, j: nat) {
    exists k :: 0 <= k < |rs| && InRange(rs[k], j)
  }

  lemma ConsRunsWellFormed(r: Range, rest: seq<Range>, n: nat)
    requires r.start < r.end <= n && WellFormedRuns(rest, n)
    requires |rest| > 0 ==> r.end < rest[0].start
    ensures WellFormedRuns([r] + rest, n)
  {
    var rs := [r] + rest;
    forall k | 0 <= k < |rs| - 1 ensures rs[k].end < rs[k + 1].start {
      if k > 0 { assert rs[k] == rest[k - 1] && rs[k + 1] == rest[k]; }
    }
  }

  lemma ConsRunsCovered(r: Range, rest: seq<Range>, j: nat)
    ensures Covered([r] + rest, j) <==> InRange(r, j) || Covered(rest, j)
  {
    var rs := [r] + rest;
    if Covered(rest, j) {
      var k :| 0 <= k < |rest| && InRange(rest[k], j);
      assert rs[k + 1] == rest[k];
    }
    if Covered(rs, j) && !InRange(r, j) {
      var k :| 0 <= k < |rs| && InRange(rs[k], j);
      assert rs[k] == rest[k - 1];
    }
    if InRange(r, j) {
      assert InRange(rs[0], j);
    }
  }

  lemma {:induction false} RunsFromSound(s: seq<Option<Block>>, topics: set<Topic>, i: nat)
    requires i <= |s|
    ensures WellFormedRuns(RunsFrom(s, topics, i), |s|)
    ensures forall k :: 0 <= k < |RunsFrom(s, topics, i)| ==> i <= RunsFrom(s, topics, i)[k].start
    ensures forall j :: i <= j < |s| ==> (FullyLoaded(s[j], topics) <==> Covered(RunsFrom(s, topics, i), j))
    decreases |s| - i
  {
    if i == |s| {
    } else if !FullyLoaded(s[i], topics) {
      RunsFromSound(s, topics, i + 1);
    } else {
      var e := RunEnd(s, topics, i);
      var rest := RunsFrom(s, topics, e);
      var rs := [Range(i, e)] + rest;
      assert RunsFrom(s, topics, i) == rs;
      RunsFromSound(s, topics, e);
      if |rest| > 0 {
        assert rest[0].start < |s| && FullyLoaded(s[rest[0].start], topics) by {
          assert InRange(rest[0], rest[0].start);
        }
      }
      ConsRunsWellFormed(Range(i, e), rest, |s|);
      forall j | i <= j < |s|
        ensures FullyLoaded(s[j], topics) <==> Covered(rs, j)
      {
        ConsRunsCovered(Range(i, e), rest, j);
      }
      forall k | 0 <= k < |rs| ensures i <= rs[k].start {
        if k > 0 { assert rs[k] == rest[k - 1]; }
      }
    }
  }

  /**
   * calculateProgress's ranges are sorted, disjoint and non-adjacent runs
   * whose union is exactly the set of allocated blocks holding a key for every
   * subscribed topic; absent blocks never count.
   */
  lemma LoadedRangesSound(s: seq<Option<Block>>, topics: set<Topic>)
    ensures var rs := LoadedRanges(s, topics);
      && WellFormedRuns(rs, |s|)
      && (forall j :: 0 <= j < |s| ==> (FullyLoaded(s[j], topics) <==> Covered(rs, j)))
  {
    RunsFromSound(s, topics, 0);
  }

  // ---- filling a block from one readUntil result

  /** Adds one cursor result to the per-topic arrays; problem results are not stored. */
  function AddResult(m: map<Topic, seq<Message>>, r: IterResult): map<Topic, seq<Message>> {
    if r.ProblemResult? then m
    else
      var t := r.msgEvent.topic;
      m[t := (if t in m then m[t] else []) + [r.msgEvent]]
  }

  /** The per-topic arrays built from a non-empty read. */
  function GroupByTopic(rs: seq<IterResult>): map<Topic, seq<Message>> {
    if |rs| == 0 then map[] else AddResult(GroupByTopic(rs[..|rs| - 1]), rs[|rs| - 1])
  }

  /** The messages of `rs` on topic `t`, in order. */
  function MessagesOn(rs: seq<IterResult>, t: Topic): seq<Message> {
    if |rs| == 0 then []
    else
      var r := rs[|rs| - 1];
      MessagesOn(rs[..|rs| - 1], t) + (if r.MessageResult? && r.msgEvent.topic == t then [r.msgEvent] else [])
  }

  /** Total byte size of the messages in `rs`; problems weigh nothing. */
  function PayloadSize(rs: seq<IterResult>): nat {
    if |rs| == 0 then 0
    else
      var r := rs[|rs| - 1];
      PayloadSize(rs[..|rs| - 1]) + (if r.MessageResult? then r.msgEvent.sizeInBytes else 0)
  }

  /** A prefix of a read weighs no more than the whole read. */
  lemma {:induction false} PayloadSizePrefix(rs: seq<IterResult>, k: nat)
    requires k <= |rs|
    ensures PayloadSize(rs[..k]) <= PayloadSize(rs)
    decreases |rs|
  {
    if k < |rs| {
      assert rs[..|rs| - 1][..k] == rs[..k];
      PayloadSizePrefix(rs[..|rs| - 1], k);
    } else {
      assert rs[..k] == rs;
    }
  }

  /**
   * The arrays built from a read have a key exactly for the topics that
   * received a message, and each holds that topic's messages in arrival order.
   */
  lemma {:induction false} GroupByTopicSound(rs: seq<IterResult>)
    ensures forall t :: t in GroupByTopic(rs) <==> MessagesOn(rs, t) != []
    ensures forall t :: t in GroupByTopic(rs) ==> GroupByTopic(rs)[t] == MessagesOn(rs, t)
  {
    if |rs| > 0 {
      GroupByTopicSound(rs[..|rs| - 1]);
    }
  }

  /** `{t: [] for t in topicsToFetch}`: an empty read still records every fetched topic. */
  function EmptyArrays(topics: set<Topic>): map<Topic, seq<Message>> {
    map t | t in topics :: []
  }

  /** The block written after an empty read: the fetched topics get empty arrays, the size is kept. */
  function FilledEmpty(existing: Option<Block>, topicsToFetch: set<Topic>): Block {
    Block(MessagesOf(existing) + EmptyArrays(topicsToFetch), SizeOf(existing), {})
  }

  /** The block written after a non-empty read whose messages were all admitted. */
  function Filled(existing: Option<Block>, rs: seq<IterResult>): Block {
    Block(MessagesOf(existing) + GroupByTopic(rs), SizeOf(existing) + PayloadSize(rs), {})
  }

  /** An empty read makes the block fully loaded for every fetched topic. */
  lemma FilledEmptyLoads(existing: Option<Block>, topicsToFetch: set<Topic>)
    ensures FullyLoaded(Some(FilledEmpty(existing, topicsToFetch)), topicsToFetch)
    ensures FilledEmpty(existing, topicsToFetch).needTopics == {}
    ensures SizeOf(Some(FilledEmpty(existing, topicsToFetch))) == SizeOf(existing)
  {
  }

  /**
   * A fetched topic that got no message in a read, and had no array before,
   * gets no key, yet the block is marked as needing nothing: such a block is
   * not reported as loaded for the fetched topics.
   */
  lemma SilentTopicNotLoaded(existing: Option<Block>, rs: seq<IterResult>, topicsToFetch: set<Topic>, t: Topic)
    requires t in topicsToFetch && t !in MessagesOf(existing) && MessagesOn(rs, t) == []
    ensures Filled(existing, rs).needTopics == {}
    ensures !FullyLoaded(Some(Filled(existing, rs)), topicsToFetch)
  {
    GroupByTopicSound(rs);
  }

  /** The block written after one read: FilledEmpty for an empty read, Filled for one whose messages were admitted. */
  function Fill(existing: Option<Block>, rs: seq<IterResult>, topicsToFetch: set<Topic>): (b: Block)
    ensures b.needTopics == {}
    ensures |rs| == 0 ==> FullyLoaded(Some(b), topicsToFetch)
    ensures forall t :: t in b.messagesByTopic <==> t in MessagesOf(existing) || (|rs| == 0 && t in topicsToFetch) || MessagesOn(rs, t) != []
  {
    GroupByTopicSound(rs);
    if |rs| == 0 then FilledEmpty(existing, topicsToFetch) else Filled(existing, rs)
  }

  /** setTopics' recomputation for one block: needTopics := topics \ keys(messagesByTopic). */
  function WithTopics(b: Option<Block>, topics: set<Topic>): Option<Block> {
    if b.None? then None
    else Some(b.value.(needTopics := topics - b.value.messagesByTopic.Keys))
  }

  /**
   * After setTopics a block needs nothing exactly when it is fully loaded for
   * the new topics, a topic it lacks is needed, absent blocks stay absent and
   * messages and sizes are kept.
   */
  lemma WithTopicsSound(b: Option<Block>, topics: set<Topic>)
    ensures var b' := WithTopics(b, topics);
      && b'.Some? == b.Some?
      && SizeOf(b') == SizeOf(b) && MessagesOf(b') == MessagesOf(b)
      && (b'.Some? ==> (b'.value.needTopics == {} <==> FullyLoaded(b', topics)))
      && (b'.Some? ==> forall t :: t in topics && t !in MessagesOf(b) ==> t in b'.value.needTopics)
  {
    if b.Some? {
      var keys := b.value.messagesByTopic.Keys;
      if topics <= keys {
        assert topics - keys == {};
      } else {
        var t :| t in topics && t !in keys;
        assert t in topics - keys;
      }
    }
  }
}
