/** The telegram queue as it is kept: outgoing telegrams in a heap, incoming ones in a deque. */
module TelegramQueues {
  import opened Telegrams
  import opened QueueSteps
  import EntryHeap

  /** The entry a heap of these entries pops. */
  ghost predicate Top(pending: seq<Entry>, e: Entry) {
    e in pending && forall x :: x in pending ==> EntryHeap.NotAfter(e, x)
  }

  /** The heap pops exactly the first accepted of the most urgent entries. */
  lemma TopIsNext(pending: seq<Entry>, counter: nat, e: Entry)
    requires Numbered(pending, counter) && pending != []
    ensures Top(pending, e) <==> e == pending[NextIndex(pending)]
  {
    hide NextIndex, RankOf;
    var next := pending[NextIndex(pending)];
    forall k | 0 <= k < |pending|
      ensures pending[k] == next || EntryHeap.Before(next, pending[k])
    {
      if k < NextIndex(pending) {
        assert RankOf(next) < RankOf(pending[k]);
      } else if k > NextIndex(pending) {
        assert RankOf(next) <= RankOf(pending[k]);
      }
    }
    assert next in pending;
  }

  /** Popping the heap that holds the pending entries. */
  method PopNext(heap: seq<Entry>, ghost pending: seq<Entry>, ghost counter: nat)
    returns (e: Entry, rest: seq<Entry>)
    requires EntryHeap.IsHeap(heap) && heap != []
    requires multiset(heap) == multiset(pending) && Numbered(pending, counter)
    ensures pending != [] && e == pending[NextIndex(pending)]
    ensures EntryHeap.IsHeap(rest) && multiset(rest) == multiset(Without(pending, NextIndex(pending)))
  {
    hide NextIndex, RankOf, Without, Numbered, EntryHeap.NotAfter, EntryHeap.IsHeap;
    SameEntries(heap, pending);
    e, rest := EntryHeap.Pop(heap);
    TopIsNext(pending, counter, e);
    RemoveNext(pending, NextIndex(pending), multiset(rest));
  }

  lemma SameEntries(heap: seq<Entry>, pending: seq<Entry>)
    requires multiset(heap) == multiset(pending)
    ensures |heap| == |pending| && forall x :: x in heap <==> x in pending
  {
    assert |multiset(heap)| == |heap| && |multiset(pending)| == |pending|;
    forall x
      ensures x in heap <==> x in pending
    {
      assert x in multiset(heap) <==> x in multiset(pending);
    }
  }

  lemma RemoveNext(pending: seq<Entry>, i: nat, rest: multiset<Entry>)
    requires i < |pending| && multiset(pending) == rest + multiset{pending[i]}
    ensures rest == multiset(Without(pending, i))
  {
    assert pending == pending[..i] + [pending[i]] + pending[i + 1..];
    assert multiset(pending) == multiset(Without(pending, i)) + multiset{pending[i]};
    assert rest == multiset(pending) - multiset{pending[i]};
  }

  class TelegramQueue {
    const maxSize: nat
    var outgoing: seq<Entry>
    var incoming: seq<Telegram>
    var stats: Stats
    var closed: bool
    /** The heap's entries in the order they were accepted. */
    ghost var pending: seq<Entry>

    ghost predicate Valid()
      reads this
    {
      EntryHeap.IsHeap(outgoing) && multiset(outgoing) == multiset(pending) && Numbered(pending, stats.sequenceCounter)
    }

    ghost function Value(): (q: Queue)
      reads this
    {
      Queue(pending, incoming, stats, closed)
    }

    constructor (maxSize: nat)
      ensures Valid() && this.maxSize == maxSize && Value() == New()
    {
      this.maxSize := maxSize;
      outgoing, incoming, pending := [], [], [];
      stats := Stats(0, 0, 0, 0, 0, 0);
      closed := false;
    }

    /** The size fields after a telegram was accepted. */
    method NoteGrowth()
      modifies this`stats
      ensures stats == old(stats).(totalEnqueued := old(stats).totalEnqueued + 1,
                                   currentSize := |outgoing| + |incoming|,
                                   peakSize := if |outgoing| + |incoming| > old(stats).peakSize
                                               then |outgoing| + |incoming| else old(stats).peakSize)
    {
      stats := stats.(totalEnqueued := stats.totalEnqueued + 1);
      stats := stats.(currentSize := |outgoing| + |incoming|);
      if stats.currentSize > stats.peakSize {
        stats := stats.(peakSize := stats.currentSize);
      }
    }

    method EnqueueOutgoing(t: Telegram) returns (r: Reply)
      requires Valid()
      modifies this
      ensures Valid() && (Value(), r) == EnqueueOutgoingStep(old(Value()), maxSize, t)
    {
      hide Numbered, EntryHeap.IsHeap;
      if closed {
        return QueueClosed;
      }
      SameEntries(outgoing, pending);
      if |outgoing| >= maxSize {
        stats := stats.(droppedCount := stats.droppedCount + 1);
        return QueueFull;
      }
      var entry := Entry(t, stats.sequenceCounter);
      AppendNumbered(pending, t, stats.sequenceCounter);
      stats := stats.(sequenceCounter := stats.sequenceCounter + 1);
      outgoing := EntryHeap.Push(outgoing, entry);
      pending := pending + [entry];
      SameEntries(outgoing, pending);
      NoteGrowth();
      return Accepted;
    }

    method EnqueueIncoming(t: Telegram) returns (r: Reply)
      requires Valid()
      modifies this
      ensures Valid() && (Value(), r) == EnqueueIncomingStep(old(Value()), maxSize, t)
    {
      if closed {
        return QueueClosed;
      }
      if |incoming| >= maxSize {
        stats := stats.(droppedCount := stats.droppedCount + 1);
        return QueueFull;
      }
      incoming := incoming + [t];
      NoteGrowth();
      return Accepted;
    }

    /** One round of the dequeue loop: a telegram, the end of the queue, or a wait for the next change. */
    method DequeueOutgoing() returns (r: Reply)
      requires Valid()
      modifies this
      ensures Valid() && (Value(), r) == DequeueOutgoingStep(old(Value()))
    {
      hide NextIndex, RankOf, Without, Numbered, EntryHeap.IsHeap;
      SameEntries(outgoing, pending);
      if outgoing != [] {
        var entry, rest := PopNext(outgoing, pending, stats.sequenceCounter);
        WithoutNumbered(pending, NextIndex(pending), stats.sequenceCounter);
        outgoing := rest;
        pending := Without(pending, NextIndex(pending));
        SameEntries(outgoing, pending);
        stats := stats.(totalDequeued := stats.totalDequeued + 1, currentSize := |outgoing| + |incoming|);
        return Got(entry.telegram);
      }
      return if closed then Drained else Waiting;
    }

    method DequeueIncoming() returns (r: Reply)
      requires Valid()
      modifies this
      ensures Valid() && (Value(), r) == DequeueIncomingStep(old(Value()))
    {
      if incoming != [] {
        var t := incoming[0];
        incoming := incoming[1..];
        stats := stats.(totalDequeued := stats.totalDequeued + 1, currentSize := |outgoing| + |incoming|);
        return Got(t);
      }
      return if closed then Drained else Waiting;
    }

    method Close()
      requires Valid()
      modifies this`closed
      ensures Valid() && Value() == Step(old(Value()), maxSize, Op.Close).0
    {
      closed := true;
    }

    method Clear()
      requires Valid()
      modifies this
      ensures Valid() && Value() == Step(old(Value()), maxSize, Op.Clear).0
    {
      outgoing, incoming, pending := [], [], [];
      stats := stats.(currentSize := 0);
    }
  }
}
