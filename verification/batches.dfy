/** `_run_batches` (sqlalchemy_tibero/base.py:1670-1689): the object names are
    sent to the catalog query in slices of at most 500 bound values, one
    execution per slice, and the rows of all executions are chained. The
    query execution is a function from a batch to its rows. */
module Batches {

  /** Names bound per execution. */
  const BatchSize: nat := 500

  function Flatten<T>(chunks: seq<seq<T>>): seq<T>
    decreases |chunks|
  {
    if |chunks| == 0 then [] else chunks[0] + Flatten(chunks[1..])
  }

  /** The reference: consecutive slices of `size`, the last one possibly shorter. */
  function Chunks<T>(s: seq<T>, size: nat): (chunks: seq<seq<T>>)
    requires size > 0
    ensures forall i :: 0 <= i < |chunks| ==> 0 < |chunks[i]| <= size
    decreases |s|
  {
    if |s| == 0 then []
    else if |s| <= size then [s]
    else [s[..size]] + Chunks(s[size..], size)
  }

  /** The slices put back together are the names. */
  lemma {:induction false} ChunksFlatten<T>(s: seq<T>, size: nat)
    requires size > 0
    ensures Flatten(Chunks(s, size)) == s
    decreases |s|
  {
    if 0 < |s| <= size {
      assert Flatten([s]) == s + Flatten([]);
    } else if |s| > size {
      var rest := Chunks(s[size..], size);
      ChunksFlatten(s[size..], size);
      assert ([s[..size]] + rest)[1..] == rest;
      assert s[..size] + s[size..] == s;
    }
  }

  /** There are as many slices as 500s needed to cover the names. */
  lemma {:induction false} ChunkCount<T>(s: seq<T>)
    ensures |Chunks(s, BatchSize)| == (|s| + BatchSize - 1) / BatchSize
    decreases |s|
  {
    if |s| > BatchSize {
      ChunkCount(s[BatchSize..]);
    }
  }

  /** The rows of every batch, in batch order. */
  function RowsOf<T, R>(chunks: seq<seq<T>>, execute: seq<T> -> seq<R>): seq<R>
    decreases |chunks|
  {
    if |chunks| == 0 then [] else execute(chunks[0]) + RowsOf(chunks[1..], execute)
  }

  lemma {:induction false} RowsOfSnoc<T, R>(chunks: seq<seq<T>>, last: seq<T>, execute: seq<T> -> seq<R>)
    ensures RowsOf(chunks + [last], execute) == RowsOf(chunks, execute) + execute(last)
    decreases |chunks|
  {
    if |chunks| > 0 {
      assert (chunks + [last])[1..] == chunks[1..] + [last];
      RowsOfSnoc(chunks[1..], last, execute);
    } else {
      assert RowsOf([last], execute) == execute(last) + RowsOf([], execute);
    }
  }

  /** The first slice of non-empty names, and the slices of the rest. */
  lemma ChunksStep<T>(s: seq<T>)
    requires |s| > 0
    ensures var n := if |s| < BatchSize then |s| else BatchSize;
            Chunks(s, BatchSize) == [s[..n]] + Chunks(s[n..], BatchSize)
  {
    if |s| <= BatchSize {
      assert s[..|s|] == s;
      assert Chunks(s[|s|..], BatchSize) == [];
    }
  }

  /** One turn of the loop keeps the slices executed so far, followed by the
      slices of what remains, equal to the slices of all the names. */
  lemma BatchStep<R>(allObjects: seq<string>, executed: seq<seq<string>>, remaining: seq<string>,
                     execute: seq<string> -> seq<R>)
    requires |remaining| > 0
    requires executed + Chunks(remaining, BatchSize) == Chunks(allObjects, BatchSize)
    ensures var n := if |remaining| < BatchSize then |remaining| else BatchSize;
            var batch := remaining[..n];
            (executed + [batch]) + Chunks(remaining[n..], BatchSize) == Chunks(allObjects, BatchSize)
            && RowsOf(executed, execute) + execute(batch) == RowsOf(executed + [batch], execute)
  {
    var n := if |remaining| < BatchSize then |remaining| else BatchSize;
    var batch := remaining[..n];
    ChunksStep(remaining);
    RowsOfSnoc(executed, batch, execute);
    assert (executed + [batch]) + Chunks(remaining[n..], BatchSize)
           == executed + ([batch] + Chunks(remaining[n..], BatchSize));
  }

  /** Slices `batches[0:500]` off the front of the names until none remain,
      executing each slice. Returns the executed batches and the rows. */
  method RunBatches<R>(allObjects: seq<string>, execute: seq<string> -> seq<R>)
    returns (executed: seq<seq<string>>, rows: seq<R>)
    ensures Flatten(executed) == allObjects
    ensures forall i :: 0 <= i < |executed| ==> 1 <= |executed[i]| <= BatchSize
    ensures |executed| == (|allObjects| + BatchSize - 1) / BatchSize
    ensures executed == Chunks(allObjects, BatchSize)
    ensures rows == RowsOf(executed, execute)
    ensures |allObjects| == 0 ==> executed == [] && rows == []
  {
    var remaining := allObjects;
    executed := [];
    rows := [];
    while |remaining| > 0
      invariant executed + Chunks(remaining, BatchSize) == Chunks(allObjects, BatchSize)
      invariant rows == RowsOf(executed, execute)
      decreases |remaining|
    {
      var n := if |remaining| < BatchSize then |remaining| else BatchSize;
      var batch := remaining[..n];
      BatchStep(allObjects, executed, remaining, execute);
      rows := rows + execute(batch);
      executed := executed + [batch];
      remaining := remaining[n..];
    }
    assert executed + [] == executed;
    ChunksFlatten(allObjects, BatchSize);
    ChunkCount(allObjects);
  }
}
