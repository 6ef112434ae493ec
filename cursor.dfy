/**
 * A pull cursor over a source's sequential message stream (IteratorCursor.ts).
 *
 * The iterator is modelled by the finite sequence `stream` it will produce and
 * the number `pos` of items it has produced so far. `readUntil(end)` returns
 * everything up to `end` and keeps at most one overshooting result for the next
 * call. The constructor takes no cancellation token, so `readUntil` always
 * returns a sequence (never "cancelled").
 */
module Cursor {
  import opened Wrappers
  import opened Messages

  /** The buffered overshoot result, as a sequence of zero or one items. */
  function Buffered(last: Option<IterResult>): seq<IterResult> {
    if last.Some? then [last.value] else []
  }

  /** Index of the first result in `s` that carries a message received after `end`, or |s|. */
  function OvershootIndex(s: seq<IterResult>, end: nat): (k: nat)
    ensures k <= |s|
    ensures forall j :: 0 <= j < k ==> !PastEnd(s[j], end)
    ensures k < |s| ==> PastEnd(s[k], end)
  {
    if |s| == 0 then 0
    else if PastEnd(s[0], end) then 0
    else 1 + OvershootIndex(s[1..], end)
  }

  /** What the cursor has consumed of its iterator and what it holds back. */
  datatype CursorState = CursorState(pos: nat, last: Option<IterResult>)

  /**
   * The effect of one `readUntil(end)` call: the returned results and the
   * cursor state afterwards.
   */
  function ReadUntilStep(stream: seq<IterResult>, st: CursorState, end: nat): (r: (seq<IterResult>, CursorState))
    requires st.pos <= |stream|
    ensures st.pos <= r.1.pos <= |stream|
  {
    if st.last.Some? && PastEnd(st.last.value, end) then ([], st)
    else
      var rest := stream[st.pos..];
      var k := OvershootIndex(rest, end);
      if k < |rest| then (Buffered(st.last) + rest[..k], CursorState(st.pos + k + 1, Some(rest[k])))
      else (Buffered(st.last) + rest, CursorState(|stream|, None))
  }

  /** The concatenated output of successive `readUntil` calls with the given end times. */
  function ReadAll(stream: seq<IterResult>, st: CursorState, ends: seq<nat>): (r: (seq<IterResult>, CursorState))
    requires st.pos <= |stream|
    ensures st.pos <= r.1.pos <= |stream|
    decreases |ends|
  {
    if |ends| == 0 then ([], st)
    else
      var step := ReadUntilStep(stream, st, ends[0]);
      var tail := ReadAll(stream, step.1, ends[1..]);
      (step.0 + tail.0, tail.1)
  }

  /** The output of each of successive `readUntil` calls with the given end times, one sequence per call. */
  function Reads(stream: seq<IterResult>, st: CursorState, ends: seq<nat>): (rs: seq<seq<IterResult>>)
    requires st.pos <= |stream|
    ensures |rs| == |ends|
    decreases |ends|
  {
    if |ends| == 0 then []
    else
      var step := ReadUntilStep(stream, st, ends[0]);
      [step.0] + Reads(stream, step.1, ends[1..])
  }

  /** The results of several reads joined in order. */
  function Concat(rs: seq<seq<IterResult>>): seq<IterResult> {
    if |rs| == 0 then [] else rs[0] + Concat(rs[1..])
  }

  /** Reading on from the k-th call: this call returns the k-th output, and the calls after it the rest. */
  lemma ReadsStep(stream: seq<IterResult>, st: CursorState, ends: seq<nat>, k: nat, outputs: seq<seq<IterResult>>)
    requires st.pos <= |stream| && k < |ends| == |outputs|
    requires Reads(stream, st, ends[k..]) == outputs[k..]
    ensures ReadUntilStep(stream, st, ends[k]).0 == outputs[k]
    ensures Reads(stream, ReadUntilStep(stream, st, ends[k]).1, ends[k + 1..]) == outputs[k + 1..]
  {
    var e := ends[k..];
    assert e[0] == ends[k] && e[1..] == ends[k + 1..];
    var step := ReadUntilStep(stream, st, e[0]);
    assert Reads(stream, st, e) == [step.0] + Reads(stream, step.1, e[1..]);
    assert outputs[k..][1..] == outputs[k + 1..];
  }

  /** Joining the per-call outputs gives the output of the whole series of calls. */
  lemma {:induction false} ReadsConcat(stream: seq<IterResult>, st: CursorState, ends: seq<nat>)
    requires st.pos <= |stream|
    ensures Concat(Reads(stream, st, ends)) == ReadAll(stream, st, ends).0
    decreases |ends|
  {
    if |ends| > 0 {
      var step := ReadUntilStep(stream, st, ends[0]);
      ReadsConcat(stream, step.1, ends[1..]);
      assert Reads(stream, st, ends)[1..] == Reads(stream, step.1, ends[1..]);
    }
  }

  /** Each call's output stays within that call's end time. */
  lemma {:induction false} ReadsBounded(stream: seq<IterResult>, st: CursorState, ends: seq<nat>)
    requires st.pos <= |stream|
    ensures forall i, r :: 0 <= i < |ends| && r in Reads(stream, st, ends)[i] ==> !PastEnd(r, ends[i])
    decreases |ends|
  {
    if |ends| > 0 {
      var step := ReadUntilStep(stream, st, ends[0]);
      ReadUntilBounded(stream, st, ends[0]);
      ReadsBounded(stream, step.1, ends[1..]);
      forall i, r | 0 <= i < |ends| && r in Reads(stream, st, ends)[i]
        ensures !PastEnd(r, ends[i])
      {
        if i > 0 {
          assert Reads(stream, st, ends)[i] == Reads(stream, step.1, ends[1..])[i - 1];
        }
      }
    }
  }

  /** A read that meets its first past-end result at `stop` returns everything before it and holds it back. */
  lemma ReadUntilStopsAt(stream: seq<IterResult>, st: CursorState, end: nat, stop: nat)
    requires st.pos <= stop < |stream|
    requires !(st.last.Some? && PastEnd(st.last.value, end))
    requires forall j :: st.pos <= j < stop ==> !PastEnd(stream[j], end)
    requires PastEnd(stream[stop], end)
    ensures ReadUntilStep(stream, st, end).0 == Buffered(st.last) + stream[st.pos..stop]
    ensures ReadUntilStep(stream, st, end).1 == CursorState(stop + 1, Some(stream[stop]))
  {
    var rest := stream[st.pos..];
    assert PastEnd(rest[stop - st.pos], end);
    assert OvershootIndex(rest, end) == stop - st.pos;
    assert rest[..stop - st.pos] == stream[st.pos..stop];
  }

  /** A read that meets no past-end result returns the whole rest of the stream and holds nothing back. */
  lemma ReadUntilRunsOut(stream: seq<IterResult>, st: CursorState, end: nat)
    requires st.pos <= |stream|
    requires !(st.last.Some? && PastEnd(st.last.value, end))
    requires forall j :: st.pos <= j < |stream| ==> !PastEnd(stream[j], end)
    ensures ReadUntilStep(stream, st, end).0 == Buffered(st.last) + stream[st.pos..]
    ensures ReadUntilStep(stream, st, end).1 == CursorState(|stream|, None)
  {
    var rest := stream[st.pos..];
    assert forall j :: 0 <= j < |rest| ==> !PastEnd(rest[j], end);
  }

  /** While the buffered result is still past `end`, `readUntil` returns nothing and changes nothing. */
  lemma ReadUntilHoldsOvershoot(stream: seq<IterResult>, st: CursorState, end: nat)
    requires st.pos <= |stream|
    requires st.last.Some? && PastEnd(st.last.value, end)
    ensures ReadUntilStep(stream, st, end) == ([], st)
  {
  }

  /** Every returned result that carries a message was received at or before `end`; problems pass through. */
  lemma ReadUntilBounded(stream: seq<IterResult>, st: CursorState, end: nat)
    requires st.pos <= |stream|
    ensures forall r :: r in ReadUntilStep(stream, st, end).0 ==> !PastEnd(r, end)
  {
  }

  /**
   * Afterwards the buffer is empty only when the iterator is exhausted, and
   * otherwise holds a result past `end`: the one it already held, or the last
   * result consumed by this call.
   */
  lemma ReadUntilBuffer(stream: seq<IterResult>, st: CursorState, end: nat)
    requires st.pos <= |stream|
    ensures var st' := ReadUntilStep(stream, st, end).1;
      && (st'.last.None? ==> st'.pos == |stream|)
      && (st'.last.Some? ==> PastEnd(st'.last.value, end))
      && (st'.last.Some? && st' != st ==> 0 < st'.pos && st'.last.value == stream[st'.pos - 1])
  {
  }

  /** One call loses and duplicates nothing: output plus buffer is old buffer plus what was consumed. */
  lemma ReadUntilNoLoss(stream: seq<IterResult>, st: CursorState, end: nat)
    requires st.pos <= |stream|
    ensures ReadUntilStep(stream, st, end).0 + Buffered(ReadUntilStep(stream, st, end).1.last)
         == Buffered(st.last) + stream[st.pos..ReadUntilStep(stream, st, end).1.pos]
  {
    if !(st.last.Some? && PastEnd(st.last.value, end)) {
      var rest := stream[st.pos..];
      var k := OvershootIndex(rest, end);
      if k < |rest| {
        assert rest[..k] + [rest[k]] == stream[st.pos..st.pos + k + 1];
      } else {
        assert rest == stream[st.pos..|stream|];
      }
    }
  }

  /** Two no-loss steps compose into one. */
  lemma Glue<T>(o1: seq<T>, o2: seq<T>, b0: seq<T>, b1: seq<T>, b2: seq<T>, s: seq<T>, i: nat, j: nat, k: nat)
    requires i <= j <= k <= |s|
    requires o1 + b1 == b0 + s[i..j]
    requires o2 + b2 == b1 + s[j..k]
    ensures (o1 + o2) + b2 == b0 + s[i..k]
  {
    assert s[i..j] + s[j..k] == s[i..k];
    calc {
      (o1 + o2) + b2;
      o1 + (b1 + s[j..k]);
      (b0 + s[i..j]) + s[j..k];
    }
  }

  /** Successive calls lose and duplicate nothing, and keep the stream's order. */
  lemma {:induction false} ReadAllNoLoss(stream: seq<IterResult>, st: CursorState, ends: seq<nat>)
    requires st.pos <= |stream|
    ensures ReadAll(stream, st, ends).0 + Buffered(ReadAll(stream, st, ends).1.last)
         == Buffered(st.last) + stream[st.pos..ReadAll(stream, st, ends).1.pos]
    decreases |ends|
  {
    if |ends| > 0 {
      var step := ReadUntilStep(stream, st, ends[0]);
      var tail := ReadAll(stream, step.1, ends[1..]);
      assert ReadAll(stream, st, ends) == (step.0 + tail.0, tail.1);
      ReadUntilNoLoss(stream, st, ends[0]);
      ReadAllNoLoss(stream, step.1, ends[1..]);
      Glue(step.0, tail.0, Buffered(st.last), Buffered(step.1.last), Buffered(tail.1.last),
           stream, st.pos, step.1.pos, tail.1.pos);
    }
  }

  /** From a fresh cursor, all outputs followed by the buffered item are exactly the consumed prefix. */
  lemma FreshCursorNoLoss(stream: seq<IterResult>, ends: seq<nat>)
    ensures ReadAll(stream, CursorState(0, None), ends).0 + Buffered(ReadAll(stream, CursorState(0, None), ends).1.last)
         == stream[..ReadAll(stream, CursorState(0, None), ends).1.pos]
  {
    ReadAllNoLoss(stream, CursorState(0, None), ends);
  }

  /**
   * From a fresh cursor, the per-call outputs joined in order, followed by the
   * held-back result, are exactly the prefix of the stream consumed: each
   * result reaches exactly one call, in stream order.
   */
  lemma FreshReadsNoLoss(stream: seq<IterResult>, ends: seq<nat>)
    ensures var fin := ReadAll(stream, CursorState(0, None), ends).1;
      Concat(Reads(stream, CursorState(0, None), ends)) + Buffered(fin.last) == stream[..fin.pos]
  {
    ReadsConcat(stream, CursorState(0, None), ends);
    FreshCursorNoLoss(stream, ends);
  }

  /** IteratorCursor: a cursor built over an async iterator. */
  class IteratorCursor {
    var stream: seq<IterResult>
    var pos: nat
    var lastIteratorResult: Option<IterResult>

    ghost predicate Valid()
      reads this
    {
      pos <= |stream|
    }

    function State(): CursorState
      reads this
    {
      CursorState(pos, lastIteratorResult)
    }

    constructor (iter: seq<IterResult>)
      ensures Valid()
      ensures stream == iter && State() == CursorState(0, None)
    {
      stream := iter;
      pos := 0;
      lastIteratorResult := None;
    }

    /** The iterator's next value, ignoring any buffered result; None once it is exhausted. */
    method Next() returns (r: Option<IterResult>)
      requires Valid()
      modifies this`pos
      ensures Valid() && stream == old(stream) && lastIteratorResult == old(lastIteratorResult)
      ensures old(pos) < |stream| ==> r == Some(stream[old(pos)]) && pos == old(pos) + 1
      ensures old(pos) == |stream| ==> r == None && pos == old(pos)
    {
      if pos < |stream| {
        r := Some(stream[pos]);
        pos := pos + 1;
      } else {
        r := None;
      }
    }

    method ReadUntil(end: nat) returns (results: seq<IterResult>)
      requires Valid()
      modifies this`pos, this`lastIteratorResult
      ensures Valid() && stream == old(stream)
      ensures results == ReadUntilStep(stream, old(State()), end).0
      ensures State() == ReadUntilStep(stream, old(State()), end).1
    {
      ghost var st0 := State();
      if lastIteratorResult.Some? && PastEnd(lastIteratorResult.value, end) {
        ReadUntilHoldsOvershoot(stream, st0, end);
        return [];
      }
      var held := if lastIteratorResult.Some? then [lastIteratorResult.value] else [];
      assert held == Buffered(st0.last);
      lastIteratorResult := None;
      var read := ReadFromIterator(end);
      results := held + read;
      if lastIteratorResult.Some? {
        ReadUntilStopsAt(stream, st0, end, pos - 1);
      } else {
        ReadUntilRunsOut(stream, st0, end);
      }
    }

    /**
     * The iterator loop of readUntil, entered with nothing held back: pulls
     * results until one is past `end`, which is held back, or the iterator is
     * done.
     */
    method ReadFromIterator(end: nat) returns (read: seq<IterResult>)
      requires Valid() && lastIteratorResult.None?
      modifies this`pos, this`lastIteratorResult
      ensures Valid() && old(pos) <= pos
      ensures lastIteratorResult.Some? ==>
        old(pos) < pos && lastIteratorResult.value == stream[pos - 1] && PastEnd(stream[pos - 1], end)
      ensures lastIteratorResult.None? ==> pos == |stream|
      ensures read == stream[old(pos)..pos - |Buffered(lastIteratorResult)|]
      ensures forall j :: old(pos) <= j < pos - |Buffered(lastIteratorResult)| ==> !PastEnd(stream[j], end)
    {
      ghost var p0 := pos;
      read := [];
      while pos < |stream|
        invariant p0 <= pos <= |stream|
        invariant lastIteratorResult == None
        invariant read == stream[p0..pos]
        invariant forall j :: p0 <= j < pos ==> !PastEnd(stream[j], end)
        decreases |stream| - pos
      {
        var value := stream[pos];
        assert stream[p0..pos + 1] == stream[p0..pos] + [value];
        pos := pos + 1;
        if PastEnd(value, end) {
          lastIteratorResult := Some(value);
          return;
        }
        read := read + [value];
      }
    }

    /** Releases the iterator: it produces nothing more. */
    method End()
      requires Valid()
      modifies this`stream
      ensures Valid() && stream == old(stream)[..pos]
    {
      stream := stream[..pos];
    }
  }
}
