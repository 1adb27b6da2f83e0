/** Emptying the queue: in which order a backlog comes out. */
module QueueDrain {
  import opened Telegrams
  import opened QueueSteps
  import opened QueueOrder

  /** What dequeuing until nothing is left hands out. */
  function Drain(s: seq<Entry>): (r: seq<Telegram>)
    decreases |s|
  {
    if s == [] then [] else [s[NextIndex(s)].telegram] + Drain(Without(s, NextIndex(s)))
  }

  /** Stable sort by urgency. */
  function ByUrgency(s: seq<Telegram>): (r: seq<Telegram>) {
    OfPriority(s, System) + OfPriority(s, Urgent) + OfPriority(s, Normal) + OfPriority(s, Low)
  }

  lemma {:induction false} DrainSorts(s: seq<Entry>)
    ensures Drain(s) == ByUrgency(Payloads(s))
    decreases |s|
  {
    hide OfPriority, NextIndex;
    if s == [] {
      assert Payloads(s) == [];
      NoneOfPriority([], System);
      NoneOfPriority([], Urgent);
      NoneOfPriority([], Normal);
      NoneOfPriority([], Low);
    } else {
      DrainSorts(Without(s, NextIndex(s)));
      NextIsMostUrgent(s);
    }
  }

  lemma NextIsMostUrgent(s: seq<Entry>)
    requires s != []
    ensures var i := NextIndex(s);
            ByUrgency(Payloads(s)) == [s[i].telegram] + ByUrgency(Payloads(Without(s, i)))
  {
    hide OfPriority, NextIndex, Payloads, Without;
    var i := NextIndex(s);
    var first, rest := s[i].telegram, Payloads(Without(s, i));
    forall p: Priority
      ensures OfPriority(Payloads(s), p) == OfPriority([first], p) + OfPriority(rest, p)
      ensures Rank(p) < Rank(first.priority) ==> OfPriority(rest, p) == []
    {
      NextIsFirstOfItsPriority(s, p);
      OneOfPriority(first, p);
      NoMoreUrgent(s, p);
    }
    Regroup(first, rest);
  }

  lemma NoMoreUrgent(s: seq<Entry>, p: Priority)
    requires s != []
    ensures Rank(p) < RankOf(s[NextIndex(s)]) ==> OfPriority(Payloads(Without(s, NextIndex(s))), p) == []
  {
    hide NextIndex;
    var rest := Without(s, NextIndex(s));
    if Rank(p) < RankOf(s[NextIndex(s)]) {
      forall k | 0 <= k < |rest|
        ensures Payloads(rest)[k].priority != p
      {
        assert rest[k] in s;
      }
      NoneOfPriority(Payloads(rest), p);
    }
  }

  lemma Regroup(first: Telegram, rest: seq<Telegram>)
    requires forall p :: Rank(p) < Rank(first.priority) ==> OfPriority(rest, p) == []
    ensures [first] + ByUrgency(rest)
            == OfPriority([first], System) + OfPriority(rest, System)
               + (OfPriority([first], Urgent) + OfPriority(rest, Urgent))
               + (OfPriority([first], Normal) + OfPriority(rest, Normal))
               + (OfPriority([first], Low) + OfPriority(rest, Low))
  {
    hide OfPriority;
    OneOfPriority(first, System);
    OneOfPriority(first, Urgent);
    OneOfPriority(first, Normal);
    OneOfPriority(first, Low);
    var a, b, c := OfPriority(rest, System), OfPriority(rest, Urgent), OfPriority(rest, Normal);
    PutFirst(first, a, b, c, OfPriority(rest, Low));
    assert Rank(System) < Rank(first.priority) ==> a == [];
    assert Rank(Urgent) < Rank(first.priority) ==> b == [];
    assert Rank(Normal) < Rank(first.priority) ==> c == [];
  }

  /** An element in front of four runs joins the first run that is not preceded by an inhabited one. */
  lemma PutFirst<T>(x: T, a: seq<T>, b: seq<T>, c: seq<T>, d: seq<T>)
    ensures [x] + (a + b + c + d) == ([x] + a) + ([] + b) + ([] + c) + ([] + d)
    ensures a == [] ==> [x] + (a + b + c + d) == ([] + a) + ([x] + b) + ([] + c) + ([] + d)
    ensures a == b == [] ==> [x] + (a + b + c + d) == ([] + a) + ([] + b) + ([x] + c) + ([] + d)
    ensures a == b == c == [] ==> [x] + (a + b + c + d) == ([] + a) + ([] + b) + ([] + c) + ([x] + d)
  {
    assert [] + a == a && [] + b == b && [] + c == c && [] + d == d;
    assert [x] + (a + b + c + d) == ([x] + a) + b + c + d;
  }

  function Dequeues(n: nat): (ops: seq<Op>)
    ensures |ops| == n
  {
    if n == 0 then [] else [DequeueOutgoing] + Dequeues(n - 1)
  }

  function GotAll(ts: seq<Telegram>): (r: seq<Reply>) {
    seq(|ts|, i requires 0 <= i < |ts| => Got(ts[i]))
  }

  /**
   * Dequeuing a whole backlog hands it out most urgent first, and first come first served within a priority; the next
   * dequeue then reports the end if the queue is closed, and waits if it is open.
   */
  lemma BacklogIsSorted(q: Queue, maxSize: nat)
    ensures var (last, replies) := Run(q, maxSize, Dequeues(|q.pending| + 1));
            && replies == GotAll(ByUrgency(Payloads(q.pending))) + [if q.closed then Drained else Waiting]
            && last.pending == [] && last.incoming == q.incoming
  {
    hide ByUrgency, Payloads;
    DrainSorts(q.pending);
    BacklogDrains(q, maxSize);
  }

  lemma {:induction false} BacklogDrains(q: Queue, maxSize: nat)
    ensures var (last, replies) := Run(q, maxSize, Dequeues(|q.pending| + 1));
            && replies == GotAll(Drain(q.pending)) + [if q.closed then Drained else Waiting]
            && last.pending == [] && last.incoming == q.incoming
    decreases |q.pending|
  {
    hide NextIndex;
    var ops := Dequeues(|q.pending| + 1);
    assert ops[0] == DequeueOutgoing && ops[1..] == Dequeues(|q.pending|);
    var (next, reply) := Step(q, maxSize, DequeueOutgoing);
    hide Step, Without;
    if q.pending == [] {
      EmptyBacklog(q, maxSize);
    } else {
      FirstOfBacklog(q, maxSize);
      BacklogDrains(next, maxSize);
      GotAllFirst(reply.telegram, Drain(next.pending));
    }
  }

  lemma EmptyBacklog(q: Queue, maxSize: nat)
    requires q.pending == []
    ensures Run(q, maxSize, Dequeues(1)) == (q, [if q.closed then Drained else Waiting])
  {
    assert Dequeues(1) == [DequeueOutgoing];
    RunOne(q, maxSize, DequeueOutgoing);
  }

  lemma RunOne(q: Queue, maxSize: nat, op: Op)
    ensures Run(q, maxSize, [op]) == (Step(q, maxSize, op).0, [Step(q, maxSize, op).1])
  {
    hide Step;
    var ops := [op];
    assert ops[1..] == [];
    assert Run(Step(q, maxSize, op).0, maxSize, ops[1..]) == (Step(q, maxSize, op).0, []);
    assert [Step(q, maxSize, op).1] + [] == [Step(q, maxSize, op).1];
  }

  lemma FirstOfBacklog(q: Queue, maxSize: nat)
    requires q.pending != []
    ensures var (next, reply) := Step(q, maxSize, DequeueOutgoing);
            && reply.Got? && Drain(q.pending) == [reply.telegram] + Drain(next.pending)
            && |next.pending| == |q.pending| - 1 && next.incoming == q.incoming && next.closed == q.closed
  {
    hide NextIndex;
  }

  lemma GotAllFirst(t: Telegram, rest: seq<Telegram>)
    ensures GotAll([t] + rest) == [Got(t)] + GotAll(rest)
  {
    assert ([t] + rest)[1..] == rest;
  }

  // ---- When a backlog comes out in the order it went in ----

  /** No telegram is more urgent than one accepted before it. */
  predicate Ranked(s: seq<Entry>) {
    forall i, j :: 0 <= i < j < |s| ==> RankOf(s[i]) <= RankOf(s[j])
  }

  lemma {:induction false} DrainIsFifo(s: seq<Entry>)
    ensures Drain(s) == Payloads(s) <==> Ranked(s)
    decreases |s|
  {
    hide NextIndex, RankOf, Ranked, Payloads, Without;
    if s == [] {
      PayloadsEmpty();
      NothingRanked();
    } else if NextIndex(s) == 0 {
      FirstInPlace(s);
      DrainIsFifo(s[1..]);
      HeadsAgree(s[0].telegram, Drain(s[1..]), Payloads(s[1..]));
      RankedFromFirst(s);
    } else {
      FirstOvertaken(s);
    }
  }

  lemma NothingRanked()
    ensures Ranked([])
  {
  }

  lemma FirstInPlace(s: seq<Entry>)
    requires s != [] && NextIndex(s) == 0
    ensures Without(s, 0) == s[1..] && Payloads(s) == [s[0].telegram] + Payloads(s[1..])
  {
    hide NextIndex, RankOf;
  }

  lemma FirstOvertaken(s: seq<Entry>)
    requires s != [] && NextIndex(s) > 0
    ensures Drain(s) != Payloads(s) && !Ranked(s)
  {
    hide NextIndex, Without;
    var i := NextIndex(s);
    assert RankOf(s[i]) < RankOf(s[0]);
    DifferentRanks(s[i], s[0]);
    hide RankOf;
    assert Drain(s)[0] == s[i].telegram && Payloads(s)[0] == s[0].telegram;
  }

  lemma DifferentRanks(a: Entry, b: Entry)
    requires RankOf(a) != RankOf(b)
    ensures a.telegram != b.telegram
  {
  }

  lemma HeadsAgree<T>(x: T, a: seq<T>, b: seq<T>)
    ensures [x] + a == [x] + b <==> a == b
  {
    assert ([x] + a)[1..] == a && ([x] + b)[1..] == b;
  }

  lemma RankedFromFirst(s: seq<Entry>)
    requires s != [] && NextIndex(s) == 0
    ensures Ranked(s) <==> Ranked(s[1..])
  {
    hide RankOf;
    if Ranked(s[1..]) {
      forall i, j | 0 <= i < j < |s|
        ensures RankOf(s[i]) <= RankOf(s[j])
      {
        if i > 0 {
          assert s[i] == s[1..][i - 1] && s[j] == s[1..][j - 1];
        }
      }
    }
  }

  /** The replies of as many dequeues as there are pending telegrams. */
  lemma {:induction false} BacklogReplies(q: Queue, maxSize: nat)
    ensures Run(q, maxSize, Dequeues(|q.pending|)).1 == GotAll(Drain(q.pending))
    decreases |q.pending|
  {
    hide NextIndex, Without, Step;
    if q.pending != [] {
      var ops := Dequeues(|q.pending|);
      assert ops[0] == DequeueOutgoing && ops[1..] == Dequeues(|q.pending| - 1);
      var (next, reply) := Step(q, maxSize, DequeueOutgoing);
      FirstOfBacklog(q, maxSize);
      BacklogReplies(next, maxSize);
      GotAllFirst(reply.telegram, Drain(next.pending));
    }
  }

  lemma GotAllInjective(a: seq<Telegram>, b: seq<Telegram>)
    ensures GotAll(a) == GotAll(b) <==> a == b
  {
    if GotAll(a) == GotAll(b) {
      assert |a| == |GotAll(a)| == |b|;
      forall i | 0 <= i < |a|
        ensures a[i] == b[i]
      {
        assert GotAll(a)[i] == Got(a[i]) && GotAll(b)[i] == Got(b[i]);
      }
    }
  }

  /** A backlog is handed out in the order it was accepted if and only if no telegram is more urgent than an earlier one. */
  lemma FifoIffRanked(q: Queue, maxSize: nat)
    ensures Run(q, maxSize, Dequeues(|q.pending|)).1 == GotAll(Payloads(q.pending)) <==> Ranked(q.pending)
  {
    hide Run, Drain, GotAll, Ranked, Payloads;
    BacklogReplies(q, maxSize);
    GotAllInjective(Drain(q.pending), Payloads(q.pending));
    DrainIsFifo(q.pending);
  }

  /** A low-priority telegram accepted first is overtaken by a system telegram, whatever the configuration. */
  lemma OvertakenByUrgency(low: Telegram, system: Telegram)
    requires low.priority == Low && system.priority == System
    ensures var q := Run(New(), 2, [EnqueueOutgoing(low), EnqueueOutgoing(system)]).0;
            && Payloads(q.pending) == [low, system]
            && Run(q, 2, Dequeues(2)).1 == [Got(system), Got(low)]
  {
    var a := Step(New(), 2, EnqueueOutgoing(low)).0;
    var b := Step(a, 2, EnqueueOutgoing(system)).0;
    assert b.pending == [Entry(low, 0), Entry(system, 1)];
    RunTwo(New(), 2, EnqueueOutgoing(low), EnqueueOutgoing(system));
    BacklogReplies(b, 2);
    DrainTwo(Entry(low, 0), Entry(system, 1));
  }

  lemma RunTwo(q: Queue, maxSize: nat, a: Op, b: Op)
    ensures Run(q, maxSize, [a, b]).0 == Step(Step(q, maxSize, a).0, maxSize, b).0
  {
    hide Step;
    var ops := [a, b];
    assert ops[1..] == [b];
    RunOne(Step(q, maxSize, a).0, maxSize, b);
  }

  lemma DrainTwo(a: Entry, b: Entry)
    requires RankOf(b) < RankOf(a)
    ensures GotAll(Drain([a, b])) == [Got(b.telegram), Got(a.telegram)]
  {
    var s := [a, b];
    assert s[NextIndex(s)] == b;
    assert Without(s, 1) == [a];
    assert Drain([a]) == [a.telegram] + Drain(Without([a], 0));
    assert Drain(s) == [b.telegram, a.telegram];
    GotAllFirst(b.telegram, [a.telegram]);
    GotAllFirst(a.telegram, []);
    assert [b.telegram] + [a.telegram] == [b.telegram, a.telegram] && [a.telegram] + [] == [a.telegram];
  }
}
