/** What the queue hands out, over whole runs: nothing lost or invented, and who overtakes whom. */
module QueueOrder {
  import opened Telegrams
  import opened QueueSteps

  // ---- Conservation ----

  /** Telegrams held by a queue. */
  ghost function Held(q: Queue): (m: multiset<Telegram>) {
    multiset(Payloads(q.pending)) + multiset(q.incoming)
  }

  function Payloads(s: seq<Entry>): (r: seq<Telegram>) {
    seq(|s|, i requires 0 <= i < |s| => s[i].telegram)
  }

  /** Telegrams the run took in, handed out, and threw away when it was cleared. */
  ghost function TakenIn(ops: seq<Op>, replies: seq<Reply>): (m: multiset<Telegram>)
    requires |ops| == |replies|
  {
    if ops == [] then multiset{} else Taken(ops[0], replies[0]) + TakenIn(ops[1..], replies[1..])
  }

  ghost function Taken(op: Op, reply: Reply): (m: multiset<Telegram>) {
    if reply != Accepted then multiset{}
    else match op
         case EnqueueOutgoing(t) => multiset{t}
         case EnqueueIncoming(t) => multiset{t}
         case _ => multiset{}
  }

  ghost function HandedOut(replies: seq<Reply>): (m: multiset<Telegram>) {
    if replies == [] then multiset{} else Handed(replies[0]) + HandedOut(replies[1..])
  }

  ghost function Handed(reply: Reply): (m: multiset<Telegram>) {
    if reply.Got? then multiset{reply.telegram} else multiset{}
  }

  ghost function ThrownAway(q: Queue, maxSize: nat, ops: seq<Op>): (m: multiset<Telegram>)
    decreases |ops|
  {
    if ops == [] then multiset{}
    else (if ops[0].Clear? then Held(q) else multiset{}) + ThrownAway(Step(q, maxSize, ops[0]).0, maxSize, ops[1..])
  }

  lemma PayloadsAppend(s: seq<Entry>, e: Entry)
    ensures Payloads(s + [e]) == Payloads(s) + [e.telegram]
  {
  }

  lemma PayloadsWithout(s: seq<Entry>, i: nat)
    requires i < |s|
    ensures Payloads(Without(s, i)) == Without(Payloads(s), i)
  {
  }

  lemma MultisetWithout<T>(s: seq<T>, i: nat)
    requires i < |s|
    ensures multiset(s) == multiset(Without(s, i)) + multiset{s[i]}
  {
    assert s == s[..i] + [s[i]] + s[i + 1..];
  }

  /** Two balances in a row are one balance. */
  lemma BalanceChain<T>(a: multiset<T>, t0: multiset<T>, t1: multiset<T>, h0: multiset<T>, h1: multiset<T>,
                        b: multiset<T>, c: multiset<T>, x0: multiset<T>, x1: multiset<T>)
    requires a + t0 == h0 + b + x0
    requires b + t1 == h1 + c + x1
    ensures a + (t0 + t1) == (h0 + h1) + c + (x0 + x1)
  {
    forall e: T
      ensures (a + (t0 + t1))[e] == ((h0 + h1) + c + (x0 + x1))[e]
    {
      assert (a + t0)[e] == (h0 + b + x0)[e];
      assert (b + t1)[e] == (h1 + c + x1)[e];
    }
  }

  lemma OrderChain<T>(a: seq<T>, t0: seq<T>, t1: seq<T>, g0: seq<T>, g1: seq<T>, b: seq<T>, c: seq<T>)
    requires a + t0 == g0 + b
    requires b + t1 == g1 + c
    ensures a + (t0 + t1) == (g0 + g1) + c
  {
    assert a + (t0 + t1) == (a + t0) + t1;
    assert (g0 + b) + t1 == g0 + (b + t1);
  }

  lemma HeldChange(pending: seq<Entry>, incoming: seq<Telegram>)
    ensures forall e: Entry :: multiset(Payloads(pending + [e])) == multiset(Payloads(pending)) + multiset{e.telegram}
    ensures pending != [] ==>
              var i := NextIndex(pending);
              multiset(Payloads(pending)) == multiset(Payloads(Without(pending, i))) + multiset{pending[i].telegram}
    ensures incoming != [] ==> multiset(incoming) == multiset{incoming[0]} + multiset(incoming[1..])
    ensures forall t: Telegram :: multiset(incoming + [t]) == multiset(incoming) + multiset{t}
    ensures Payloads([]) == []
  {
    hide NextIndex, Without, Payloads;
    forall e: Entry
      ensures multiset(Payloads(pending + [e])) == multiset(Payloads(pending)) + multiset{e.telegram}
    {
      PayloadsAppend(pending, e);
    }
    if pending != [] {
      PayloadsWithout(pending, NextIndex(pending));
      PayloadAt(pending, NextIndex(pending));
      MultisetWithout(Payloads(pending), NextIndex(pending));
    }
    if incoming != [] {
      assert incoming == [incoming[0]] + incoming[1..];
    }
    PayloadsEmpty();
  }

  lemma PayloadAt(s: seq<Entry>, i: nat)
    requires i < |s|
    ensures |Payloads(s)| == |s| && Payloads(s)[i] == s[i].telegram
  {
  }

  lemma PayloadsEmpty()
    ensures Payloads([]) == []
  {
  }

  lemma Rearrange<T>(p: multiset<T>, i: multiset<T>, t: T)
    ensures (p + i) + multiset{} == multiset{} + (p + i) + multiset{}
    ensures (p + i) + multiset{t} == multiset{} + ((p + multiset{t}) + i) + multiset{}
    ensures (p + i) + multiset{t} == multiset{} + (p + (i + multiset{t})) + multiset{}
    ensures ((p + multiset{t}) + i) + multiset{} == multiset{t} + (p + i) + multiset{}
    ensures (p + (multiset{t} + i)) + multiset{} == multiset{t} + (p + i) + multiset{}
  {
  }

  /** What a step does to the two queues. */
  lemma StepContents(q: Queue, maxSize: nat, op: Op)
    ensures var (next, reply) := Step(q, maxSize, op);
            && (reply.Accepted? ==> op.EnqueueOutgoing? || op.EnqueueIncoming?)
            && (reply.Got? ==> op.DequeueOutgoing? || op.DequeueIncoming?)
            && (!reply.Accepted? && !reply.Got? && !op.Clear? ==>
                  next.pending == q.pending && next.incoming == q.incoming)
            && (op.Clear? ==> next.pending == [] && next.incoming == [])
            && (reply.Accepted? && op.EnqueueOutgoing? ==>
                  next.incoming == q.incoming
                  && next.pending == q.pending + [Entry(op.out, q.stats.sequenceCounter)])
            && (reply.Accepted? && op.EnqueueIncoming? ==>
                  next.pending == q.pending && next.incoming == q.incoming + [op.arrived])
            && (reply.Got? && op.DequeueOutgoing? ==>
                  && q.pending != [] && next.incoming == q.incoming
                  && next.pending == Without(q.pending, NextIndex(q.pending))
                  && reply.telegram == q.pending[NextIndex(q.pending)].telegram)
            && (reply.Got? && op.DequeueIncoming? ==>
                  && q.incoming != [] && next.pending == q.pending
                  && next.incoming == q.incoming[1..] && reply.telegram == q.incoming[0])
  {
    hide NextIndex, Without;
  }

  lemma EnqueueConserves(q: Queue, maxSize: nat, op: Op)
    requires op.EnqueueOutgoing? || op.EnqueueIncoming?
    ensures var (next, reply) := Step(q, maxSize, op);
            Held(q) + Taken(op, reply) == Handed(reply) + Held(next) + multiset{}
  {
    hide NextIndex, Without, Payloads, Step;
    StepContents(q, maxSize, op);
    HeldChange(q.pending, q.incoming);
    Rearrange(multiset(Payloads(q.pending)), multiset(q.incoming), if op.EnqueueOutgoing? then op.out else op.arrived);
  }

  lemma DequeueConserves(q: Queue, maxSize: nat, op: Op)
    requires op.DequeueOutgoing? || op.DequeueIncoming?
    ensures var (next, reply) := Step(q, maxSize, op);
            Held(q) + Taken(op, reply) == Handed(reply) + Held(next) + multiset{}
  {
    hide NextIndex, Without, Payloads, Step;
    StepContents(q, maxSize, op);
    HeldChange(q.pending, q.incoming);
    var (next, reply) := Step(q, maxSize, op);
    if reply.Got? {
      Rearrange(multiset(Payloads(next.pending)), multiset(next.incoming), reply.telegram);
    }
  }

  lemma StepConserves(q: Queue, maxSize: nat, op: Op)
    ensures var (next, reply) := Step(q, maxSize, op);
            Held(q) + Taken(op, reply)
            == Handed(reply) + Held(next) + (if op.Clear? then Held(q) else multiset{})
  {
    hide NextIndex, Without, Payloads, Step;
    match op {
      case EnqueueOutgoing(_) => EnqueueConserves(q, maxSize, op);
      case EnqueueIncoming(_) => EnqueueConserves(q, maxSize, op);
      case DequeueOutgoing => DequeueConserves(q, maxSize, op);
      case DequeueIncoming => DequeueConserves(q, maxSize, op);
      case Close => StepContents(q, maxSize, op);
      case Clear =>
        StepContents(q, maxSize, op);
        PayloadsEmpty();
    }
  }

  /** Every telegram taken in is handed out once, still held, or was thrown away by a clear; and nothing else is. */
  lemma {:induction false} RunConserves(q: Queue, maxSize: nat, ops: seq<Op>)
    ensures var (last, replies) := Run(q, maxSize, ops);
            Held(q) + TakenIn(ops, replies) == HandedOut(replies) + Held(last) + ThrownAway(q, maxSize, ops)
    decreases |ops|
  {
    hide Step, Held, Taken, Handed;
    if ops != [] {
      var (next, reply) := Step(q, maxSize, ops[0]);
      var replies := Run(next, maxSize, ops[1..]).1;
      assert ([reply] + replies)[1..] == replies;
      StepConserves(q, maxSize, ops[0]);
      RunConserves(next, maxSize, ops[1..]);
      BalanceChain(Held(q), Taken(ops[0], reply), TakenIn(ops[1..], replies), Handed(reply), HandedOut(replies),
                   Held(next), Held(Run(q, maxSize, ops).0), if ops[0].Clear? then Held(q) else multiset{},
                   ThrownAway(next, maxSize, ops[1..]));
    }
  }

  /** The run's multisets have the sizes its counters show. */
  lemma {:induction false} HistoryCounts(q: Queue, maxSize: nat, ops: seq<Op>)
    ensures var replies := Run(q, maxSize, ops).1;
            && |TakenIn(ops, replies)| == CountReplies(replies, (r: Reply) => r.Accepted?)
            && |HandedOut(replies)| == CountReplies(replies, (r: Reply) => r.Got?)
    decreases |ops|
  {
    if ops != [] {
      var (next, reply) := Step(q, maxSize, ops[0]);
      var replies := Run(next, maxSize, ops[1..]).1;
      assert ([reply] + replies)[1..] == replies;
      StepContents(q, maxSize, ops[0]);
      hide Step, NextIndex, Without;
      HistoryCounts(next, maxSize, ops[1..]);
    }
  }

  lemma HeldSize(q: Queue)
    ensures |Held(q)| == Size(q)
  {
    assert |Payloads(q.pending)| == |q.pending|;
  }

  /** For every run of a new queue: enqueued is dequeued plus current plus cleared. */
  lemma CountersBalance(maxSize: nat, ops: seq<Op>)
    ensures var stats := Run(New(), maxSize, ops).0.stats;
            stats.totalEnqueued == stats.totalDequeued + stats.currentSize + |ThrownAway(New(), maxSize, ops)|
  {
    hide Run, Held, TakenIn, HandedOut, ThrownAway, CountReplies;
    var (last, replies) := Run(New(), maxSize, ops);
    RunConserves(New(), maxSize, ops);
    StatsAreHistory(New(), maxSize, ops);
    HistoryCounts(New(), maxSize, ops);
    HeldSize(New());
    HeldSize(last);
    assert |Held(New()) + TakenIn(ops, replies)| == |Held(New())| + |TakenIn(ops, replies)|;
  }

  // ---- Order ----

  /** The telegrams of one priority, in order. */
  function OfPriority(s: seq<Telegram>, p: Priority): (r: seq<Telegram>) {
    if s == [] then [] else (if s[0].priority == p then [s[0]] else []) + OfPriority(s[1..], p)
  }

  lemma {:induction false} OfPriorityConcat(s: seq<Telegram>, t: seq<Telegram>, p: Priority)
    ensures OfPriority(s + t, p) == OfPriority(s, p) + OfPriority(t, p)
    decreases |s|
  {
    if s == [] {
      assert s + t == t;
    } else {
      OfPriorityConcat(s[1..], t, p);
      assert (s + t)[1..] == s[1..] + t;
      var head := if s[0].priority == p then [s[0]] else [];
      assert OfPriority(s + t, p) == head + (OfPriority(s[1..], p) + OfPriority(t, p));
      assert OfPriority(s, p) == head + OfPriority(s[1..], p);
    }
  }

  /** Outgoing and incoming telegrams that were accepted, in order. */
  function SentIn(ops: seq<Op>, replies: seq<Reply>): (r: seq<Telegram>)
    requires |ops| == |replies|
  {
    if ops == [] then []
    else (if ops[0].EnqueueOutgoing? && replies[0].Accepted? then [ops[0].out] else [])
         + SentIn(ops[1..], replies[1..])
  }

  function ArrivedIn(ops: seq<Op>, replies: seq<Reply>): (r: seq<Telegram>)
    requires |ops| == |replies|
  {
    if ops == [] then []
    else (if ops[0].EnqueueIncoming? && replies[0].Accepted? then [ops[0].arrived] else [])
         + ArrivedIn(ops[1..], replies[1..])
  }

  /** Telegrams an operation of one kind got, in order. */
  function GotBy(op: Op, ops: seq<Op>, replies: seq<Reply>): (r: seq<Telegram>)
    requires |ops| == |replies|
  {
    if ops == [] then []
    else (if ops[0] == op && replies[0].Got? then [replies[0].telegram] else []) + GotBy(op, ops[1..], replies[1..])
  }

  /** Entries of one priority keep their order when another entry leaves, and lose their first when the next one does. */
  lemma NextIsFirstOfItsPriority(s: seq<Entry>, p: Priority)
    requires s != []
    ensures var i := NextIndex(s);
            OfPriority(Payloads(s), p)
            == (if s[i].telegram.priority == p then [s[i].telegram] else []) + OfPriority(Payloads(Without(s, i)), p)
  {
    hide NextIndex, OfPriority;
    var i := NextIndex(s);
    var all := Payloads(s);
    var before, after := all[..i], all[i + 1..];
    assert Payloads(Without(s, i)) == before + after;
    assert all == before + ([all[i]] + after);
    OfPriorityConcat(before, [all[i]] + after, p);
    OfPriorityConcat([all[i]], after, p);
    OfPriorityConcat(before, after, p);
    OneOfPriority(all[i], p);
    if all[i].priority == p {
      forall k | 0 <= k < i
        ensures before[k].priority != p
      {
        assert RankOf(s[i]) < RankOf(s[k]);
      }
      NoneOfPriority(before, p);
    }
  }

  lemma OneOfPriority(t: Telegram, p: Priority)
    ensures OfPriority([t], p) == if t.priority == p then [t] else []
  {
  }

  lemma {:induction false} NoneOfPriority(s: seq<Telegram>, p: Priority)
    requires forall i :: 0 <= i < |s| ==> s[i].priority != p
    ensures OfPriority(s, p) == []
  {
    if s != [] {
      NoneOfPriority(s[1..], p);
    }
  }

  /** What leaves a side in one operation, handed out or cleared, in the order of its acceptance. */
  function LeavesIncoming(q: Queue, op: Op): (r: seq<Telegram>) {
    match op
    case Clear => q.incoming
    case DequeueIncoming => if q.incoming == [] then [] else [q.incoming[0]]
    case _ => []
  }

  function LeavesOutgoing(q: Queue, op: Op): (r: seq<Telegram>) {
    match op
    case Clear => Payloads(q.pending)
    case DequeueOutgoing => if q.pending == [] then [] else [q.pending[NextIndex(q.pending)].telegram]
    case _ => []
  }

  function LeftIncoming(q: Queue, maxSize: nat, ops: seq<Op>): (r: seq<Telegram>)
    decreases |ops|
  {
    if ops == [] then []
    else LeavesIncoming(q, ops[0]) + LeftIncoming(Step(q, maxSize, ops[0]).0, maxSize, ops[1..])
  }

  function LeftOutgoing(q: Queue, maxSize: nat, ops: seq<Op>): (r: seq<Telegram>)
    decreases |ops|
  {
    if ops == [] then []
    else LeavesOutgoing(q, ops[0]) + LeftOutgoing(Step(q, maxSize, ops[0]).0, maxSize, ops[1..])
  }

  lemma StepOrder(q: Queue, maxSize: nat, op: Op, p: Priority)
    ensures var (next, reply) := Step(q, maxSize, op);
            OfPriority(Payloads(q.pending), p) + OfPriority(SentIn([op], [reply]), p)
            == OfPriority(LeavesOutgoing(q, op), p) + OfPriority(Payloads(next.pending), p)
    ensures var (next, reply) := Step(q, maxSize, op);
            q.incoming + ArrivedIn([op], [reply]) == LeavesIncoming(q, op) + next.incoming
  {
    hide NextIndex, Payloads, OfPriority;
    var (next, reply) := Step(q, maxSize, op);
    assert OfPriority([], p) == [] by {
      NoneOfPriority([], p);
    }
    PayloadsEmpty();
    SingleHistory(op, reply);
    match op {
      case EnqueueOutgoing(t) =>
        PayloadsAppend(q.pending, Entry(t, q.stats.sequenceCounter));
        OfPriorityConcat(Payloads(q.pending), [t], p);
      case DequeueOutgoing =>
        if q.pending != [] {
          NextIsFirstOfItsPriority(q.pending, p);
          OneOfPriority(reply.telegram, p);
        }
      case DequeueIncoming =>
        if q.incoming != [] {
          assert q.incoming == [q.incoming[0]] + q.incoming[1..];
        }
      case _ =>
    }
  }

  lemma SingleHistory(op: Op, reply: Reply)
    ensures SentIn([op], [reply]) == if op.EnqueueOutgoing? && reply.Accepted? then [op.out] else []
    ensures ArrivedIn([op], [reply]) == if op.EnqueueIncoming? && reply.Accepted? then [op.arrived] else []
  {
  }

  lemma HistorySplit(ops: seq<Op>, replies: seq<Reply>)
    requires |ops| == |replies| && ops != []
    ensures SentIn(ops, replies) == SentIn([ops[0]], [replies[0]]) + SentIn(ops[1..], replies[1..])
    ensures ArrivedIn(ops, replies) == ArrivedIn([ops[0]], [replies[0]]) + ArrivedIn(ops[1..], replies[1..])
  {
    SingleHistory(ops[0], replies[0]);
  }

  /**
   * First in, first out, in every run: incoming telegrams leave in order of arrival, and outgoing telegrams of one
   * priority in the order they were accepted, whether they are handed out or cleared.
   */
  lemma {:induction false} FirstInFirstOut(q: Queue, maxSize: nat, ops: seq<Op>, p: Priority)
    ensures var (last, replies) := Run(q, maxSize, ops);
            q.incoming + ArrivedIn(ops, replies) == LeftIncoming(q, maxSize, ops) + last.incoming
    ensures var (last, replies) := Run(q, maxSize, ops);
            OfPriority(Payloads(q.pending), p) + OfPriority(SentIn(ops, replies), p)
            == OfPriority(LeftOutgoing(q, maxSize, ops), p) + OfPriority(Payloads(last.pending), p)
    decreases |ops|
  {
    hide Step, OfPriority, SentIn, ArrivedIn, Payloads, LeavesIncoming, LeavesOutgoing;
    if ops == [] {
      EmptyHistory(p);
    } else {
      var (next, reply) := Step(q, maxSize, ops[0]);
      var replies := Run(next, maxSize, ops[1..]).1;
      assert ([reply] + replies)[1..] == replies;
      StepOrder(q, maxSize, ops[0], p);
      FirstInFirstOut(next, maxSize, ops[1..], p);
      HistorySplit(ops, [reply] + replies);
      OfPriorityConcat(SentIn([ops[0]], [reply]), SentIn(ops[1..], replies), p);
      OfPriorityConcat(LeavesOutgoing(q, ops[0]), LeftOutgoing(next, maxSize, ops[1..]), p);
      var last := Run(q, maxSize, ops).0;
      OrderChain(q.incoming, ArrivedIn([ops[0]], [reply]), ArrivedIn(ops[1..], replies),
                 LeavesIncoming(q, ops[0]), LeftIncoming(next, maxSize, ops[1..]), next.incoming, last.incoming);
      OrderChain(OfPriority(Payloads(q.pending), p),
                 OfPriority(SentIn([ops[0]], [reply]), p), OfPriority(SentIn(ops[1..], replies), p),
                 OfPriority(LeavesOutgoing(q, ops[0]), p), OfPriority(LeftOutgoing(next, maxSize, ops[1..]), p),
                 OfPriority(Payloads(next.pending), p), OfPriority(Payloads(last.pending), p));
    }
  }

  lemma EmptyHistory(p: Priority)
    ensures SentIn([], []) == [] && ArrivedIn([], []) == [] && OfPriority([], p) == []
  {
  }

  /** `a` is what remains of `b` when some of its elements are struck out. */
  predicate Subsequence<T(==)>(a: seq<T>, b: seq<T>) {
    a == [] || (b != [] && ((a[0] == b[0] && Subsequence(a[1..], b[1..])) || Subsequence(a, b[1..])))
  }

  lemma {:induction false} SubsequenceBehind<T>(a: seq<T>, gap: seq<T>, b: seq<T>)
    requires Subsequence(a, b)
    ensures Subsequence(a, gap + b)
    decreases |gap|
  {
    if gap == [] {
      assert gap + b == b;
    } else {
      SubsequenceBehind(a, gap[1..], b);
      assert (gap + b)[1..] == gap[1..] + b;
    }
  }

  lemma SubsequenceFirst<T>(x: T, a: seq<T>, b: seq<T>)
    requires Subsequence(a, b)
    ensures Subsequence([x] + a, [x] + b)
  {
    assert ([x] + a)[1..] == a && ([x] + b)[1..] == b;
  }

  /** What the callers got is what left, with the cleared telegrams struck out. */
  lemma {:induction false} GotIsLeftWithGaps(q: Queue, maxSize: nat, ops: seq<Op>)
    ensures Subsequence(GotBy(DequeueIncoming, ops, Run(q, maxSize, ops).1), LeftIncoming(q, maxSize, ops))
    ensures Subsequence(GotBy(DequeueOutgoing, ops, Run(q, maxSize, ops).1), LeftOutgoing(q, maxSize, ops))
    ensures Clear !in ops ==>
              && GotBy(DequeueIncoming, ops, Run(q, maxSize, ops).1) == LeftIncoming(q, maxSize, ops)
              && GotBy(DequeueOutgoing, ops, Run(q, maxSize, ops).1) == LeftOutgoing(q, maxSize, ops)
    decreases |ops|
  {
    if ops != [] {
      var (next, reply) := Step(q, maxSize, ops[0]);
      var replies := Run(next, maxSize, ops[1..]).1;
      assert ([reply] + replies)[1..] == replies;
      GotIsLeftWithGaps(next, maxSize, ops[1..]);
      StepLeaves(q, maxSize, ops[0]);
      hide Step, LeavesIncoming, LeavesOutgoing, Subsequence, NextIndex;
      OneMoreLeaves(DequeueIncoming, ops[0], reply, LeavesIncoming(q, ops[0]), GotBy(DequeueIncoming, ops[1..], replies),
                    LeftIncoming(next, maxSize, ops[1..]));
      OneMoreLeaves(DequeueOutgoing, ops[0], reply, LeavesOutgoing(q, ops[0]), GotBy(DequeueOutgoing, ops[1..], replies),
                    LeftOutgoing(next, maxSize, ops[1..]));
    }
  }

  lemma StepLeaves(q: Queue, maxSize: nat, op: Op)
    ensures var reply := Step(q, maxSize, op).1;
            && (op == DequeueIncoming && reply.Got? ==> LeavesIncoming(q, op) == [reply.telegram])
            && (op == DequeueOutgoing && reply.Got? ==> LeavesOutgoing(q, op) == [reply.telegram])
            && (!op.Clear? && !(op == DequeueIncoming && reply.Got?) ==> LeavesIncoming(q, op) == [])
            && (!op.Clear? && !(op == DequeueOutgoing && reply.Got?) ==> LeavesOutgoing(q, op) == [])
  {
  }

  lemma OneMoreLeaves(d: Op, op: Op, reply: Reply, leaves: seq<Telegram>, got: seq<Telegram>, left: seq<Telegram>)
    requires Subsequence(got, left) && (op == d && reply.Got? ==> leaves == [reply.telegram])
    ensures Subsequence((if op == d && reply.Got? then [reply.telegram] else []) + got, leaves + left)
  {
    hide Subsequence;
    if op == d && reply.Got? {
      SubsequenceFirst(reply.telegram, got, left);
    } else {
      SubsequenceBehind(got, leaves, left);
      assert [] + got == got;
    }
  }

  // ---- Every reply, from the history ----

  lemma {:induction false} ReplyAt(q: Queue, maxSize: nat, ops: seq<Op>, i: nat)
    requires i < |ops|
    ensures Run(q, maxSize, ops).1[i] == Step(Run(q, maxSize, ops[..i]).0, maxSize, ops[i]).1
    ensures Run(q, maxSize, ops[..i]).0.closed <==> q.closed || Close in ops[..i]
    decreases |ops|
  {
    var next := Step(q, maxSize, ops[0]).0;
    assert next.closed <==> q.closed || ops[0] == Close;
    hide Step;
    if i > 0 {
      ReplyAt(next, maxSize, ops[1..], i - 1);
      assert ops[..i][1..] == ops[1..][..i - 1];
      assert ops[..i] == [ops[0]] + ops[1..][..i - 1];
    } else {
      assert ops[..0] == [];
    }
  }

  /**
   * The reply to every operation of every run: an enqueue is refused exactly after a close or when its side is full,
   * and a dequeue gets the next telegram of its side if there is one, and otherwise the end exactly after a close.
   */
  lemma ReplyIsExact(q: Queue, maxSize: nat, ops: seq<Op>, i: nat)
    requires i < |ops|
    ensures var (reply, before) := (Run(q, maxSize, ops).1[i], Run(q, maxSize, ops[..i]).0);
            var closed := q.closed || Close in ops[..i];
            match ops[i]
            case EnqueueOutgoing(_) =>
              reply == if closed then QueueClosed else if |before.pending| < maxSize then Accepted else QueueFull
            case EnqueueIncoming(_) =>
              reply == if closed then QueueClosed else if |before.incoming| < maxSize then Accepted else QueueFull
            case DequeueOutgoing =>
              if before.pending != [] then reply == Got(before.pending[NextIndex(before.pending)].telegram)
              else reply == if closed then Drained else Waiting
            case DequeueIncoming =>
              if before.incoming != [] then reply == Got(before.incoming[0])
              else reply == if closed then Drained else Waiting
            case _ => reply == Done
  {
    ReplyAt(q, maxSize, ops, i);
    hide Run, NextIndex, Without, RankOf;
  }

  // ---- Closing ----

  /** A closed queue accepts nothing more and never makes a caller wait, in any run. */
  lemma {:induction false} ClosedStaysClosed(q: Queue, maxSize: nat, ops: seq<Op>)
    requires q.closed
    ensures var (last, replies) := Run(q, maxSize, ops);
            last.closed && forall i :: 0 <= i < |replies| ==> !replies[i].Accepted? && !replies[i].Waiting?
    decreases |ops|
  {
    if ops != [] {
      var (next, reply) := Step(q, maxSize, ops[0]);
      assert next.closed && !reply.Accepted? && !reply.Waiting?;
      hide Step;
      ClosedStaysClosed(next, maxSize, ops[1..]);
    }
  }

  /** Once a dequeue has reported the end, no dequeue of that side gets a telegram again, in any run. */
  lemma {:induction false} EndIsFinal(q: Queue, maxSize: nat, ops: seq<Op>, d: Op)
    requires d == DequeueOutgoing || d == DequeueIncoming
    requires Step(q, maxSize, d).1 == Drained
    ensures GotBy(d, ops, Run(q, maxSize, ops).1) == []
    ensures Step(Run(q, maxSize, ops).0, maxSize, d).1 == Drained
    decreases |ops|
  {
    if ops != [] {
      var (next, reply) := Step(q, maxSize, ops[0]);
      var replies := Run(next, maxSize, ops[1..]).1;
      assert ([reply] + replies)[1..] == replies;
      assert Step(next, maxSize, d).1 == Drained && (ops[0] == d ==> !reply.Got?);
      hide Step;
      EndIsFinal(next, maxSize, ops[1..], d);
    }
  }
}
