/**
 * The telegram queue as a reference machine. Outgoing telegrams wait in the order they were accepted; a dequeue takes
 * the first of the most urgent ones. The mutex makes every operation one step, so a concurrent execution is a run.
 */
module QueueSteps {
  import opened Telegrams

  datatype Entry = Entry(telegram: Telegram, sequence: nat)

  datatype Stats = Stats(
    totalEnqueued: nat,
    totalDequeued: nat,
    currentSize: nat,
    peakSize: nat,
    droppedCount: nat,
    sequenceCounter: nat)

  datatype Queue = Queue(pending: seq<Entry>, incoming: seq<Telegram>, stats: Stats, closed: bool)

  datatype Op = EnqueueOutgoing(out: Telegram) | EnqueueIncoming(arrived: Telegram)
              | DequeueOutgoing | DequeueIncoming | Close | Clear

  /** `Waiting`: the caller sleeps until the queue changes and tries again. */
  datatype Reply = Accepted | QueueClosed | QueueFull | Got(telegram: Telegram) | Drained | Waiting | Done

  /** Smaller is more urgent. */
  function Rank(p: Priority): (r: nat) {
    match p
    case System => 0
    case Urgent => 1
    case Normal => 2
    case Low => 3
  }

  function RankOf(e: Entry): (r: nat) {
    Rank(e.telegram.priority)
  }

  // ---- The next outgoing telegram ----

  /** Position of the first entry of least rank. */
  function NextIndex(s: seq<Entry>): (i: nat)
    requires s != []
    ensures i < |s|
    ensures forall k :: 0 <= k < |s| ==> RankOf(s[i]) <= RankOf(s[k])
    ensures forall k :: 0 <= k < i ==> RankOf(s[i]) < RankOf(s[k])
  {
    if |s| == 1 then 0
    else
      var j := NextIndex(s[1..]) + 1;
      if RankOf(s[0]) <= RankOf(s[j]) then 0 else j
  }

  function Without<T>(s: seq<T>, i: nat): (r: seq<T>)
    requires i < |s|
    ensures |r| == |s| - 1
  {
    s[..i] + s[i + 1..]
  }

  // ---- Steps ----

  function New(): (q: Queue) {
    Queue([], [], Stats(0, 0, 0, 0, 0, 0), false)
  }

  function Size(q: Queue): (n: nat) {
    |q.pending| + |q.incoming|
  }

  /** Current and peak size after a telegram was accepted. */
  function Grown(q: Queue): (r: Queue) {
    q.(stats := q.stats.(totalEnqueued := q.stats.totalEnqueued + 1, currentSize := Size(q),
                         peakSize := if Size(q) > q.stats.peakSize then Size(q) else q.stats.peakSize))
  }

  function Shrunk(q: Queue): (r: Queue) {
    q.(stats := q.stats.(totalDequeued := q.stats.totalDequeued + 1, currentSize := Size(q)))
  }

  function Dropped(q: Queue): (r: Queue) {
    q.(stats := q.stats.(droppedCount := q.stats.droppedCount + 1))
  }

  function EnqueueOutgoingStep(q: Queue, maxSize: nat, t: Telegram): (r: (Queue, Reply)) {
    if q.closed then (q, QueueClosed)
    else if |q.pending| >= maxSize then (Dropped(q), QueueFull)
    else
      (Grown(q.(pending := q.pending + [Entry(t, q.stats.sequenceCounter)],
                stats := q.stats.(sequenceCounter := q.stats.sequenceCounter + 1))), Accepted)
  }

  function EnqueueIncomingStep(q: Queue, maxSize: nat, t: Telegram): (r: (Queue, Reply)) {
    if q.closed then (q, QueueClosed)
    else if |q.incoming| >= maxSize then (Dropped(q), QueueFull)
    else (Grown(q.(incoming := q.incoming + [t])), Accepted)
  }

  function DequeueOutgoingStep(q: Queue): (r: (Queue, Reply)) {
    if q.pending != [] then
      var i := NextIndex(q.pending);
      (Shrunk(q.(pending := Without(q.pending, i))), Got(q.pending[i].telegram))
    else (q, if q.closed then Drained else Waiting)
  }

  function DequeueIncomingStep(q: Queue): (r: (Queue, Reply)) {
    if q.incoming != [] then (Shrunk(q.(incoming := q.incoming[1..])), Got(q.incoming[0]))
    else (q, if q.closed then Drained else Waiting)
  }

  function Step(q: Queue, maxSize: nat, op: Op): (r: (Queue, Reply)) {
    match op
    case EnqueueOutgoing(t) => EnqueueOutgoingStep(q, maxSize, t)
    case EnqueueIncoming(t) => EnqueueIncomingStep(q, maxSize, t)
    case DequeueOutgoing => DequeueOutgoingStep(q)
    case DequeueIncoming => DequeueIncomingStep(q)
    case Close => (q.(closed := true), Done)
    case Clear => (q.(pending := [], incoming := [], stats := q.stats.(currentSize := 0)), Done)
  }

  /** The queue after a run, and the reply to every operation of it. */
  function Run(q: Queue, maxSize: nat, ops: seq<Op>): (r: (Queue, seq<Reply>))
    ensures |r.1| == |ops|
    decreases |ops|
  {
    if ops == [] then (q, [])
    else
      var (next, reply) := Step(q, maxSize, ops[0]);
      var (last, replies) := Run(next, maxSize, ops[1..]);
      (last, [reply] + replies)
  }

  // ---- What every reachable queue satisfies ----

  /** Sequence numbers ascend in the order of acceptance and stay below the counter. */
  predicate Numbered(s: seq<Entry>, counter: nat) {
    && (forall i, j :: 0 <= i < j < |s| ==> s[i].sequence < s[j].sequence)
    && (forall i :: 0 <= i < |s| ==> s[i].sequence < counter)
  }

  predicate Good(q: Queue, maxSize: nat) {
    && Numbered(q.pending, q.stats.sequenceCounter)
    && |q.pending| <= maxSize && |q.incoming| <= maxSize
    && q.stats.currentSize == Size(q) <= q.stats.peakSize <= 2 * maxSize
    && q.stats.totalDequeued + q.stats.currentSize <= q.stats.totalEnqueued
    && q.stats.sequenceCounter <= q.stats.totalEnqueued
  }

  lemma WithoutNumbered(s: seq<Entry>, i: nat, counter: nat)
    requires Numbered(s, counter) && i < |s|
    ensures Numbered(Without(s, i), counter)
  {
  }

  lemma AppendNumbered(s: seq<Entry>, t: Telegram, counter: nat)
    requires Numbered(s, counter)
    ensures Numbered(s + [Entry(t, counter)], counter + 1)
  {
  }

  lemma NoneNumbered(counter: nat)
    ensures Numbered([], counter)
  {
  }

  lemma StepGood(q: Queue, maxSize: nat, op: Op)
    requires Good(q, maxSize)
    ensures Good(Step(q, maxSize, op).0, maxSize)
  {
    hide Numbered, RankOf, Without, NextIndex;
    match op {
      case EnqueueOutgoing(t) => AppendNumbered(q.pending, t, q.stats.sequenceCounter);
      case Clear => NoneNumbered(q.stats.sequenceCounter);
      case DequeueOutgoing =>
        if q.pending != [] {
          WithoutNumbered(q.pending, NextIndex(q.pending), q.stats.sequenceCounter);
        }
      case _ =>
    }
  }

  /** Every reachable queue is good: sizes within the limits, statistics exact, sequence numbers ascending. */
  lemma {:induction false} RunGood(q: Queue, maxSize: nat, ops: seq<Op>)
    requires Good(q, maxSize)
    ensures Good(Run(q, maxSize, ops).0, maxSize)
    decreases |ops|
  {
    hide Good, Step;
    if ops != [] {
      StepGood(q, maxSize, ops[0]);
      RunGood(Step(q, maxSize, ops[0]).0, maxSize, ops[1..]);
    }
  }

  // ---- The statistics are the history ----

  function CountReplies(replies: seq<Reply>, p: Reply -> bool): (n: nat) {
    if replies == [] then 0 else (if p(replies[0]) then 1 else 0) + CountReplies(replies[1..], p)
  }

  /** The largest size any state of the run has. */
  function LargestSize(q: Queue, maxSize: nat, ops: seq<Op>): (n: nat)
    decreases |ops|
  {
    if ops == [] then Size(q)
    else
      var rest := LargestSize(Step(q, maxSize, ops[0]).0, maxSize, ops[1..]);
      if Size(q) > rest then Size(q) else rest
  }

  /** The counters grow by the replies of each kind, and the peak is the largest size ever reached. */
  lemma {:induction false} StatsAreHistory(q: Queue, maxSize: nat, ops: seq<Op>)
    requires q.stats.currentSize == Size(q) <= q.stats.peakSize
    ensures var (last, replies) := Run(q, maxSize, ops);
            && last.stats.totalEnqueued == q.stats.totalEnqueued + CountReplies(replies, (r: Reply) => r.Accepted?)
            && last.stats.totalDequeued == q.stats.totalDequeued + CountReplies(replies, (r: Reply) => r.Got?)
            && last.stats.droppedCount == q.stats.droppedCount + CountReplies(replies, (r: Reply) => r.QueueFull?)
            && last.stats.currentSize == Size(last)
            && last.stats.peakSize == (var n := LargestSize(q, maxSize, ops);
                                       if n > q.stats.peakSize then n else q.stats.peakSize)
    decreases |ops|
  {
    if ops != [] {
      var (next, reply) := Step(q, maxSize, ops[0]);
      var replies := Run(next, maxSize, ops[1..]).1;
      assert ([reply] + replies)[1..] == replies;
      StepStats(q, maxSize, ops[0]);
      hide Step;
      StatsAreHistory(next, maxSize, ops[1..]);
    }
  }

  lemma StepStats(q: Queue, maxSize: nat, op: Op)
    requires q.stats.currentSize == Size(q) <= q.stats.peakSize
    ensures var (next, reply) := Step(q, maxSize, op);
            && next.stats.totalEnqueued == q.stats.totalEnqueued + (if reply.Accepted? then 1 else 0)
            && next.stats.totalDequeued == q.stats.totalDequeued + (if reply.Got? then 1 else 0)
            && next.stats.droppedCount == q.stats.droppedCount + (if reply.QueueFull? then 1 else 0)
            && next.stats.currentSize == Size(next) <= next.stats.peakSize
            && next.stats.peakSize == if Size(next) > q.stats.peakSize then Size(next) else q.stats.peakSize
  {
  }
}
