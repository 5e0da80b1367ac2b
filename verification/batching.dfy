/** The bounded drain `flushBatch` runs over the event queue. */
module Batching {

  /** `BATCH_SIZE`: the most events one native call carries. */
  const BatchSize: nat := 100

  function Min(a: int, b: int): int {
    if a <= b then a else b
  }

  /** The drain loop from the point where `count` events are already batched. Each round
      polls the head of the queue first and only then checks `count < BATCH_SIZE`; the
      round that finds the batch full has already removed one more event, which is
      neither batched nor put back. Returns the batch and what is left queued. */
  function DrainFrom<T>(queue: seq<T>, count: nat): (r: (seq<T>, seq<T>))
    requires count <= BatchSize
    ensures r.0 == queue[..Min(|queue|, BatchSize - count)]
    ensures r.1 == queue[Min(|queue|, BatchSize - count + 1)..]
    decreases |queue|
  {
    if |queue| == 0 then ([], [])
    else if count >= BatchSize then ([], queue[1..])
    else
      var (batch, rest) := DrainFrom(queue[1..], count + 1);
      ([queue[0]] + batch, rest)
  }

  /** One full drain, starting from an empty batch. */
  function Drain<T>(queue: seq<T>): (seq<T>, seq<T>) {
    DrainFrom(queue, 0)
  }

  /** With more than `BATCH_SIZE` events queued, the drain batches the first hundred,
      drops the hundred-and-first, and leaves the rest queued in order: batch, lost
      event and remainder put back together are the queue. */
  lemma DrainDropsEventAfterFullBatch<T>(queue: seq<T>)
    requires |queue| > BatchSize
    ensures |Drain(queue).0| == BatchSize
    ensures Drain(queue).0 + [queue[BatchSize]] + Drain(queue).1 == queue
    ensures |Drain(queue).0| + |Drain(queue).1| == |queue| - 1
  {
    var (batch, rest) := Drain(queue);
    assert batch == queue[..BatchSize];
    assert rest == queue[BatchSize + 1..];
    assert queue[..BatchSize] + [queue[BatchSize]] == queue[..BatchSize + 1];
    assert queue[..BatchSize + 1] + queue[BatchSize + 1..] == queue;
  }

  /** With at most `BATCH_SIZE` events queued, the drain batches all of them in order and
      nothing is lost. */
  lemma DrainTakesSmallQueueWhole<T>(queue: seq<T>)
    requires |queue| <= BatchSize
    ensures Drain(queue) == (queue, [])
  {
    assert queue[..|queue|] == queue;
  }
}
