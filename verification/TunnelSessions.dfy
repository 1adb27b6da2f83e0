/** Whole sessions of a tunnel link: what a success is worth, when it is worth nothing, and when sends fail. */
module TunnelSessions {
  import opened Bytes
  import opened TunnelLink

  // ---- What a success is worth ----

  /** The client has answered some request that carried telegram `n`. */
  predicate Answered<T>(l: Link<T>, n: nat) {
    exists j :: 0 <= j < |l.acks| && l.acks[j].number == n
  }

  /** The event makes the current send succeed. */
  predicate Succeeds<T>(l: Link<T>, e: Event<T>) {
    l.phase.Waiting? && e.AckArrives? && e.ack < |l.acks| && l.acks[e.ack].ok
  }

  /** Every acknowledged telegram has been accepted. */
  predicate Delivered<T(==)>(l: Link<T>) {
    l.done <= l.accepted
  }

  predicate AlwaysDelivered<T(==)>(l: Link<T>, events: seq<Event<T>>)
    decreases |events|
  {
    Delivered(l) && (events == [] || AlwaysDelivered(Step(l, events[0]), events[1..]))
  }

  /** The server is not ahead, and the client is ahead by exactly the current telegram if it has answered that. */
  predicate Caught<T(==)>(l: Link<T>) {
    Sound(l) && l.accepted <= Log(l) && |l.done| <= |l.accepted|
    && (Answered(l, |l.done|) <==> |l.done| < |l.accepted|)
  }

  lemma NewIsCaught<T>()
    ensures Caught(New<T>())
  {
  }

  lemma CaughtIsDelivered<T>(l: Link<T>)
    requires Caught(l)
    ensures Delivered(l)
  {
  }

  lemma AnsweredAfter<T>(l: Link<T>, a: Ack, n: nat)
    ensures Answered(l.(acks := l.acks + [a]), n) <==> Answered(l, n) || a.number == n
  {
    var more := l.(acks := l.acks + [a]);
    if Answered(l, n) {
      var j :| 0 <= j < |l.acks| && l.acks[j].number == n;
      assert more.acks[j].number == n;
    }
    if a.number == n {
      assert more.acks[|l.acks|].number == n;
    }
  }

  lemma DeliverCaught<T>(l: Link<T>, e: Event<T>)
    requires Caught(l) && e.Deliver? && NearDelivery(l, e)
    ensures Caught(Step(l, e))
  {
    StepSound(l, e);
    StepInOrder(l, e);
    hide Next, Check, Sound, Answered;
    if e.copy < |l.sent| {
      var r := l.sent[e.copy];
      assert r.number < |Log(l)| && r.counter == r.number % 256 && l.expected == |l.accepted| % 256 by {
        SoundParts(l, e.copy);
      }
      Congruent(r.number, |l.accepted|);
      AnsweredAfter(l, Ack(Check(l.expected, r.counter) != Invalid, r.number, |l.accepted| - r.number), |l.done|);
      SameAcks(Step(l, e), l.(acks := Step(l, e).acks), |l.done|);
    }
  }

  lemma SoundParts<T>(l: Link<T>, i: nat)
    requires Sound(l) && i < |l.sent|
    ensures l.sent[i].number < |Log(l)| && l.sent[i].counter == l.sent[i].number % 256
    ensures l.expected == |l.accepted| % 256
  {
  }

  lemma SameAcks<T>(l: Link<T>, m: Link<T>, n: nat)
    requires l.acks == m.acks
    ensures Answered(l, n) <==> Answered(m, n)
  {
  }

  lemma NoAnswerYet<T>(l: Link<T>)
    requires Sound(l)
    ensures !Answered(l, |Log(l)|)
  {
  }

  /** One event: the server stays caught up unless it takes a success for a telegram the client has not answered. */
  lemma StepCaught<T>(l: Link<T>, e: Event<T>)
    requires Caught(l) && NearDelivery(l, e)
    ensures var next := Step(l, e);
            if Succeeds(l, e) && !Answered(l, |l.done|) then !Delivered(next) else Caught(next)
  {
    if e.Deliver? {
      DeliverCaught(l, e);
    } else {
      StepSound(l, e);
      LogGrows(l, e);
      NoAnswerYet(l);
      hide Next, Sound, Answered;
      SameAcks(Step(l, e), l, |l.done|);
      SameAcks(Step(l, e), l, |Step(l, e).done|);
    }
  }

  /** No send succeeds before the client has answered a request for its telegram. */
  predicate AnsweredFirst<T>(l: Link<T>, events: seq<Event<T>>)
    decreases |events|
  {
    events == []
    || ((Succeeds(l, events[0]) ==> Answered(l, |l.done|)) && AnsweredFirst(Step(l, events[0]), events[1..]))
  }

  lemma {:induction false} DeliveredIffAnswered<T>(l: Link<T>, events: seq<Event<T>>)
    requires Caught(l) && Within(l, events)
    ensures AlwaysDelivered(l, events) <==> AnsweredFirst(l, events)
    ensures AnsweredFirst(l, events) ==> Caught(Run(l, events))
    decreases |events|
  {
    hide Step, Caught, NearDelivery, Delivered, Succeeds, Answered;
    CaughtIsDelivered(l);
    if events != [] {
      StepCaught(l, events[0]);
      var next := Step(l, events[0]);
      if Succeeds(l, events[0]) && !Answered(l, |l.done|) {
        assert !AlwaysDelivered(next, events[1..]);
      } else {
        DeliveredIffAnswered(next, events[1..]);
      }
    }
  }

  // ---- The same on the schedule alone ----

  /** Position in `sent` of the first copy of the telegram being sent, after the event. */
  function Since<T>(l: Link<T>, e: Event<T>, since: nat): (r: nat) {
    if e.Send? && l.phase.Idle? then |l.sent| else since
  }

  /** The event brings a copy of the telegram sent last to the client. */
  predicate Brings<T>(l: Link<T>, e: Event<T>, since: nat) {
    e.Deliver? && since <= e.copy < |l.sent|
  }

  function Heard<T>(l: Link<T>, e: Event<T>, since: nat, heard: bool): (r: bool) {
    if e.Send? && l.phase.Idle? then false else heard || Brings(l, e, since)
  }

  /** No send succeeds before a copy of its own request, sent at position `since` or later, has arrived. */
  predicate HeardFirst<T>(l: Link<T>, events: seq<Event<T>>, since: nat, heard: bool)
    decreases |events|
  {
    events == []
    || (&& (Succeeds(l, events[0]) ==> heard)
        && HeardFirst(Step(l, events[0]), events[1..], Since(l, events[0], since), Heard(l, events[0], since, heard)))
  }

  /** The copies from `since` on are exactly those of the telegram sent last. */
  predicate Recent<T>(l: Link<T>, since: nat) {
    since <= |l.sent| && forall i :: 0 <= i < |l.sent| ==> (since <= i <==> l.sent[i].number + 1 == |Log(l)|)
  }

  predicate Tracks<T>(l: Link<T>, since: nat, heard: bool) {
    Recent(l, since) && (l.phase.Waiting? ==> (heard <==> Answered(l, |l.done|)))
  }

  lemma StepRecent<T>(l: Link<T>, e: Event<T>, since: nat)
    requires Sound(l) && Recent(l, since)
    ensures Recent(Step(l, e), Since(l, e, since))
  {
    hide Next, Check;
    if e.Send? && l.phase.Idle? {
      forall i | 0 <= i < |l.sent|
        ensures l.sent[i].number + 1 != |Log(Step(l, e))|
      {
        SoundParts(l, i);
      }
    }
  }

  lemma StepTracks<T>(l: Link<T>, e: Event<T>, since: nat, heard: bool)
    requires Sound(l) && Tracks(l, since, heard)
    ensures Tracks(Step(l, e), Since(l, e, since), Heard(l, e, since, heard))
  {
    StepRecent(l, e, since);
    NoAnswerYet(l);
    var next := Step(l, e);
    if e.Deliver? && e.copy < |l.sent| {
      var r := l.sent[e.copy];
      AnsweredAfter(l, Ack(Check(l.expected, r.counter) != Invalid, r.number, |l.accepted| - r.number), |l.done|);
      SameAcks(next, l.(acks := next.acks), |l.done|);
    } else {
      SameAcks(next, l, |next.done|);
    }
    hide Next, Check, Answered, Sound;
  }

  lemma {:induction false} HeardIsAnswered<T>(l: Link<T>, events: seq<Event<T>>, since: nat, heard: bool)
    requires Sound(l) && Tracks(l, since, heard)
    ensures HeardFirst(l, events, since, heard) <==> AnsweredFirst(l, events)
    decreases |events|
  {
    if events != [] {
      var e := events[0];
      assert Succeeds(l, e) ==> (heard <==> Answered(l, |l.done|));
      hide Step, Sound, Tracks, Answered, Heard, Since, Succeeds;
      StepSound(l, e);
      StepTracks(l, e, since, heard);
      HeardIsAnswered(Step(l, e), events[1..], Since(l, e, since), Heard(l, e, since, heard));
    }
  }

  /**
   * In every session without requests 256 telegrams late: the server reports only telegrams the client has accepted,
   * at every moment, if and only if no send succeeds before a copy of its own request has arrived.
   */
  lemma SuccessMeansDelivery<T>(events: seq<Event<T>>)
    requires Within(New(), events)
    ensures AlwaysDelivered(New(), events) <==> HeardFirst(New(), events, 0, false)
  {
    hide Within, AlwaysDelivered, AnsweredFirst, HeardFirst;
    NewIsCaught<T>();
    DeliveredIffAnswered(New(), events);
    HeardIsAnswered(New(), events, 0, false);
  }

  // ---- Acknowledgements of the current telegram ----

  /** An acknowledgement that ends a wait was caused by the telegram waited for. */
  predicate Matches<T>(l: Link<T>, e: Event<T>) {
    l.phase.Waiting? && e.AckArrives? && e.ack < |l.acks| ==> l.acks[e.ack].number == |l.done|
  }

  predicate Matched<T>(l: Link<T>, events: seq<Event<T>>)
    decreases |events|
  {
    events == [] || (Matches(l, events[0]) && Matched(Step(l, events[0]), events[1..]))
  }

  /** The current telegram has been refused by nobody. */
  predicate Unrefused<T>(l: Link<T>) {
    !l.phase.Rejected? && forall j :: 0 <= j < |l.acks| && l.acks[j].number == |l.done| ==> l.acks[j].ok
  }

  lemma StepMatched<T>(l: Link<T>, e: Event<T>)
    requires Caught(l) && Unrefused(l) && NearDelivery(l, e) && Matches(l, e)
    ensures Caught(Step(l, e)) && Unrefused(Step(l, e))
  {
    StepCaught(l, e);
    if e.AckArrives? && l.phase.Waiting? && e.ack < |l.acks| {
      assert Answered(l, |l.done|);
    }
    if e.Deliver? && e.copy < |l.sent| {
      SoundParts(l, e.copy);
      Congruent(l.sent[e.copy].number, |l.accepted|);
    }
    hide Next, Check, RequestsInLog, Answered;
  }

  /**
   * When the acknowledgements that end a wait belong to the telegram waited for, whatever else the network does: no
   * send is rejected, and the client accepts exactly the acknowledged telegrams, each once and in order, and after
   * them at most the one being sent.
   */
  lemma {:induction false} ExactlyOnce<T>(l: Link<T>, events: seq<Event<T>>)
    requires Caught(l) && Unrefused(l) && Within(l, events) && Matched(l, events)
    ensures var last := Run(l, events);
            && !last.phase.Rejected? && last.done <= last.accepted <= Log(last)
            && (last.phase.Idle? ==> last.accepted == last.done)
    decreases |events|
  {
    hide Step, NearDelivery, Matches, Unrefused;
    if events == [] {
      AtRest(l);
    } else {
      StepMatched(l, events[0]);
      hide Caught;
      ExactlyOnce(Step(l, events[0]), events[1..]);
    }
  }

  lemma AtRest<T>(l: Link<T>)
    requires Caught(l) && Unrefused(l)
    ensures !l.phase.Rejected? && l.done <= l.accepted <= Log(l) && (l.phase.Idle? ==> l.accepted == l.done)
  {
    hide Sound, Answered;
  }

  // ---- A network in which nothing outlives its exchange ----

  /**
   * Requests arrive before the next telegram is sent, and an acknowledgement that ends a wait was sent since the
   * telegram waited for was first sent: at position `since.0` of the requests and `since.1` of the acknowledgements.
   * Retries and repetitions may arrive, and anything may be lost.
   */
  predicate OnTime<T>(l: Link<T>, e: Event<T>, since: (nat, nat)) {
    && (e.Deliver? ==> since.0 <= e.copy)
    && (l.phase.Waiting? && e.AckArrives? ==> since.1 <= e.ack)
  }

  function Start<T>(l: Link<T>, e: Event<T>, since: (nat, nat)): (r: (nat, nat)) {
    if e.Send? && l.phase.Idle? then (|l.sent|, |l.acks|) else since
  }

  predicate Timely<T>(l: Link<T>, events: seq<Event<T>>, since: (nat, nat))
    decreases |events|
  {
    events == []
    || (OnTime(l, events[0], since) && Timely(Step(l, events[0]), events[1..], Start(l, events[0], since)))
  }

  /** Requests and acknowledgements of the current exchange carry the telegram sent last. */
  predicate Current<T>(l: Link<T>, since: (nat, nat)) {
    && Recent(l, since.0)
    && forall j :: since.1 <= j < |l.acks| ==> l.acks[j].number + 1 == |Log(l)|
  }

  lemma StepCurrent<T>(l: Link<T>, e: Event<T>, since: (nat, nat))
    requires Sound(l) && Current(l, since) && OnTime(l, e, since)
    ensures Current(Step(l, e), Start(l, e, since))
  {
    StepRecent(l, e, since.0);
    hide Next, Check, Sound;
  }

  lemma OnTimeMatches<T>(l: Link<T>, e: Event<T>, since: (nat, nat))
    requires Caught(l) && Current(l, since) && OnTime(l, e, since)
    ensures NearDelivery(l, e) && Matches(l, e)
  {
    hide Sound, Answered;
  }

  /** Where nothing outlives its exchange, acknowledgements match. */
  lemma {:induction false} TimelyIsMatched<T>(l: Link<T>, events: seq<Event<T>>, since: (nat, nat))
    requires Caught(l) && Unrefused(l) && Current(l, since) && Timely(l, events, since)
    ensures Within(l, events) && Matched(l, events)
    decreases |events|
  {
    hide Step, NearDelivery, Matches, Unrefused, Current, OnTime, Start, Sound, Answered;
    if events != [] {
      OnTimeMatches(l, events[0], since);
      StepMatched(l, events[0]);
      StepCurrent(l, events[0], since);
      hide Caught;
      TimelyIsMatched(Step(l, events[0]), events[1..], Start(l, events[0], since));
    }
  }

  /**
   * A whole session in which no request and no acknowledgement outlives its exchange, with any losses, retries and
   * repetitions: no send is rejected, and the client accepts exactly the acknowledged telegrams, each once and in
   * order, and after them at most the one being sent.
   */
  lemma FreshSession<T>(events: seq<Event<T>>)
    requires Timely(New(), events, (0, 0))
    ensures var last := Run(New(), events);
            && !last.phase.Rejected? && last.done <= last.accepted <= Log(last)
            && (last.phase.Idle? ==> last.accepted == last.done)
  {
    hide Run, Timely, Within, Matched;
    NewIsCaught<T>();
    TimelyIsMatched(New(), events, (0, 0));
    ExactlyOnce(New(), events);
  }

  // ---- When a send is rejected ----

  /** An acknowledgement is positive exactly when its request was the expected one or the one before it, modulo 256. */
  predicate Honest<T>(l: Link<T>) {
    forall j :: 0 <= j < |l.acks| ==> (l.acks[j].ok <==> l.acks[j].lag % 256 <= 1)
  }

  lemma StatusByLag(n: nat, a: nat)
    ensures Check(a % 256, n % 256) != Invalid <==> (a - n) % 256 <= 1
  {
    SameRemainder(a, n);
    if a > 0 {
      SameRemainder(a - 1, n);
      Counts(a - 1);
      OneLess(a - n);
    } else {
      SameRemainder(a + 255, n);
      OneLess(a - n);
    }
  }

  lemma OneLess(d: int)
    ensures d % 256 == 1 <==> (d - 1) % 256 == 0
    ensures (d + 255) % 256 == (d - 1) % 256
  {
  }

  lemma StepHonest<T>(l: Link<T>, e: Event<T>)
    requires Sound(l) && Honest(l)
    ensures Honest(Step(l, e))
  {
    if e.Deliver? && e.copy < |l.sent| {
      SoundParts(l, e.copy);
      StatusByLag(l.sent[e.copy].number, |l.accepted|);
    }
    hide Next, Check, Sound;
  }

  /** The event ends a wait with the answer to a request other than the expected one and the one before it. */
  predicate FarAnswer<T>(l: Link<T>, e: Event<T>) {
    l.phase.Waiting? && e.AckArrives? && e.ack < |l.acks| && l.acks[e.ack].lag % 256 > 1
  }

  predicate NoFarAnswer<T>(l: Link<T>, events: seq<Event<T>>)
    decreases |events|
  {
    events == [] || (!FarAnswer(l, events[0]) && NoFarAnswer(Step(l, events[0]), events[1..]))
  }

  lemma {:induction false} RejectedStays<T>(l: Link<T>, events: seq<Event<T>>)
    requires l.phase.Rejected?
    ensures Run(l, events).phase.Rejected?
    decreases |events|
  {
    if events != [] {
      assert Step(l, events[0]).phase.Rejected?;
      hide Step;
      RejectedStays(Step(l, events[0]), events[1..]);
    }
  }

  /** In every session, whatever the network does: no send is rejected if and only if no wait ends with a far answer. */
  lemma {:induction false} RejectedExactly<T>(l: Link<T>, events: seq<Event<T>>)
    requires Sound(l) && Honest(l) && !l.phase.Rejected?
    ensures !Run(l, events).phase.Rejected? <==> NoFarAnswer(l, events)
    decreases |events|
  {
    if events != [] {
      var next := Step(l, events[0]);
      StepSound(l, events[0]);
      StepHonest(l, events[0]);
      assert next.phase.Rejected? <==> FarAnswer(l, events[0]);
      hide Step, Sound, Honest, FarAnswer;
      if next.phase.Rejected? {
        RejectedStays(next, events[1..]);
      } else {
        RejectedExactly(next, events[1..]);
      }
    }
  }

  /** While the server is not ahead, far means two or more telegrams late. */
  predicate Lagging<T>(l: Link<T>) {
    forall j :: 0 <= j < |l.acks| ==> 0 <= l.acks[j].lag < 256
  }

  /** The answer to a request is positive exactly when the request is at most one telegram behind. */
  lemma PositiveAnswer<T>(l: Link<T>, i: nat, room: bool)
    requires Caught(l) && i < |l.sent| && Near(l.sent[i].number, |l.accepted|)
    ensures var answer := Step(l, Deliver(i, room)).acks[|l.acks|];
            && answer.lag == |l.accepted| - l.sent[i].number && 0 <= answer.lag < 256
            && (answer.ok <==> l.sent[i].number + 1 >= |l.accepted|)
  {
    SoundParts(l, i);
    StatusByLag(l.sent[i].number, |l.accepted|);
    hide Sound, Answered, Check;
  }

  predicate LateAnswer<T>(l: Link<T>, e: Event<T>) {
    l.phase.Waiting? && e.AckArrives? && e.ack < |l.acks| && l.acks[e.ack].lag >= 2
  }

  predicate NoLateAnswer<T>(l: Link<T>, events: seq<Event<T>>)
    decreases |events|
  {
    events == [] || (!LateAnswer(l, events[0]) && NoLateAnswer(Step(l, events[0]), events[1..]))
  }

  lemma StepLagging<T>(l: Link<T>, e: Event<T>)
    requires Caught(l) && Lagging(l) && NearDelivery(l, e)
    ensures Lagging(Step(l, e))
  {
    if e.Deliver? && e.copy < |l.sent| {
      PositiveAnswer(l, e.copy, e.room);
    }
    hide Caught, Next, Check;
  }

  lemma {:induction false} FarIsLate<T>(l: Link<T>, events: seq<Event<T>>)
    requires Caught(l) && Lagging(l) && Within(l, events) && AnsweredFirst(l, events)
    ensures NoFarAnswer(l, events) <==> NoLateAnswer(l, events)
    decreases |events|
  {
    if events != [] {
      assert FarAnswer(l, events[0]) <==> LateAnswer(l, events[0]);
      hide Step, Caught, Lagging, NearDelivery, Succeeds, Answered, FarAnswer, LateAnswer;
      StepCaught(l, events[0]);
      StepLagging(l, events[0]);
      FarIsLate(Step(l, events[0]), events[1..]);
    }
  }

  /**
   * In every session whose successes are deliveries: no send is rejected if and only if no wait ends with the answer
   * to a copy that arrived two or more telegrams late.
   */
  lemma RejectedByLateCopies<T>(events: seq<Event<T>>)
    requires Within(New(), events) && HeardFirst(New(), events, 0, false)
    ensures !Run(New(), events).phase.Rejected? <==> NoLateAnswer(New(), events)
  {
    hide Run, Within, AnsweredFirst, HeardFirst, NoFarAnswer, NoLateAnswer;
    NewIsCaught<T>();
    HeardIsAnswered(New(), events, 0, false);
    FarIsLate(New(), events);
    RejectedExactly(New(), events);
  }

  // ---- What reaches the client's queue ----

  /** A request judged valid finds room. */
  predicate Kept<T>(l: Link<T>, e: Event<T>) {
    e.Deliver? && e.copy < |l.sent| && Check(l.expected, l.sent[e.copy].counter) == Valid ==> e.room
  }

  predicate AllKept<T>(l: Link<T>, events: seq<Event<T>>)
    decreases |events|
  {
    events == [] || (Kept(l, events[0]) && AllKept(Step(l, events[0]), events[1..]))
  }

  lemma StepQueued<T>(l: Link<T>, e: Event<T>)
    ensures var next := Step(l, e);
            && (l.queued == l.accepted && Kept(l, e) ==> next.queued == next.accepted)
            && |next.accepted| - |next.queued| == |l.accepted| - |l.queued| + if Kept(l, e) then 0 else 1
  {
    hide Next, Check;
  }

  lemma {:induction false} GapStays<T>(l: Link<T>, events: seq<Event<T>>)
    ensures |Run(l, events).accepted| - |Run(l, events).queued| >= |l.accepted| - |l.queued|
    decreases |events|
  {
    hide Step, Kept;
    if events != [] {
      StepQueued(l, events[0]);
      GapStays(Step(l, events[0]), events[1..]);
    }
  }

  /** The queue gets what the client accepts if and only if every request judged valid finds room. */
  lemma {:induction false} QueuedIsAccepted<T>(l: Link<T>, events: seq<Event<T>>)
    requires l.queued == l.accepted
    ensures Run(l, events).queued == Run(l, events).accepted <==> AllKept(l, events)
    decreases |events|
  {
    hide Step, Kept;
    if events != [] {
      StepQueued(l, events[0]);
      if Kept(l, events[0]) {
        QueuedIsAccepted(Step(l, events[0]), events[1..]);
      } else {
        GapStays(Step(l, events[0]), events[1..]);
      }
    }
  }

  // ---- Sessions that go wrong ----

  lemma RunStep<T>(l: Link<T>, e: Event<T>, rest: seq<Event<T>>)
    ensures Run(l, [e] + rest) == Run(Step(l, e), rest)
  {
    assert ([e] + rest)[1..] == rest;
  }

  lemma Unfold3<T>(l: Link<T>, e: Event<T>, f: Event<T>, g: Event<T>)
    ensures Run(l, [e, f, g]) == Step(Step(Step(l, e), f), g)
  {
    hide Step;
    assert [e, f, g] == [e] + ([f] + ([g] + []));
    RunStep(l, e, [f] + ([g] + []));
    RunStep(Step(l, e), f, [g] + []);
    RunStep(Step(Step(l, e), f), g, []);
  }

  lemma {:induction false} RunAppend<T>(l: Link<T>, a: seq<Event<T>>, b: seq<Event<T>>)
    ensures Run(l, a + b) == Run(Run(l, a), b)
    decreases |a|
  {
    hide Step;
    if a == [] {
      assert a + b == b;
    } else {
      assert (a + b)[1..] == a[1..] + b;
      RunAppend(Step(l, a[0]), a[1..], b);
    }
  }

  /**
   * A session in which an acknowledgement of a repeated request comes late: the server counts `y` as sent, the client
   * never sees it, and the next telegram is refused.
   */
  lemma LateAckHidesLoss<T>(x: T, y: T, z: T)
    ensures var l := Run(New(), [Send(x), Deliver(0, true), Timeout] + [Deliver(1, true), AckArrives(0), Send(y)]
                                + [AckArrives(1)]);
            && l.phase == Idle && l.done == [x, y] && l.accepted == [x]
            && Run(l, [Send(z), Deliver(3, true), AckArrives(2)]).phase == Rejected(z)
  {
    var first, second := [Send(x), Deliver(0, true), Timeout], [Deliver(1, true), AckArrives(0), Send(y)];
    RunAppend(New(), first, second);
    RunSnoc(New(), first + second, AckArrives(1));
    RetriedExchange(x);
    var a := Run(New(), first);
    LeftoverAck(a, x, y);
    RefusedNext(Step(Run(a, second), AckArrives(1)), z);
  }

  lemma RetriedExchange<T>(x: T)
    ensures Run(New(), [Send(x), Deliver(0, true), Timeout])
            == Link(0, Waiting(x, true), [], [Request(0, x, 0), Request(0, x, 0)], 1, [x], [x], [Ack(true, 0, 0)])
  {
    Unfold3(New(), Send(x), Deliver(0, true), Timeout);
  }

  lemma LeftoverAck<T>(a: Link<T>, x: T, y: T)
    requires a == Link(0, Waiting(x, true), [], [Request(0, x, 0), Request(0, x, 0)], 1, [x], [x], [Ack(true, 0, 0)])
    ensures var c := Step(Run(a, [Deliver(1, true), AckArrives(0), Send(y)]), AckArrives(1));
            && c.phase == Idle && c.done == [x, y] && c.accepted == [x]
            && c.sendSeq == 2 && c.expected == 1 && |c.sent| == 3 && |c.acks| == 2
  {
    Unfold3(a, Deliver(1, true), AckArrives(0), Send(y));
  }

  lemma RefusedNext<T>(l: Link<T>, z: T)
    requires l.phase.Idle? && l.sendSeq == 2 && l.expected == 1 && |l.sent| == 3 && |l.acks| == 2
    ensures Run(l, [Send(z), Deliver(3, true), AckArrives(2)]).phase == Rejected(z)
  {
    Unfold3(l, Send(z), Deliver(3, true), AckArrives(2));
    var d := Step(Step(l, Send(z)), Deliver(3, true));
    assert |d.acks| == 3 && !d.acks[2].ok && d.phase == Waiting(z, false);
  }

  /** One exchange without trouble: sent, received, acknowledged. */
  function Exchange<T>(t: T, copy: nat): (events: seq<Event<T>>) {
    [Send(t), Deliver(copy, true), AckArrives(copy)]
  }

  /** A link after that many exchanges without trouble. */
  predicate Smooth<T(==)>(l: Link<T>, ts: seq<T>) {
    && |ts| < 256 && l.phase == Idle && l.sendSeq == l.expected == |ts| == |l.sent| == |l.acks|
    && l.done == ts && l.accepted == ts && forall i :: 0 <= i < |ts| ==> l.sent[i].counter == i
  }

  lemma ExchangeIsSmooth<T>(l: Link<T>, ts: seq<T>, t: T)
    requires Smooth(l, ts) && |ts| < 255
    ensures Smooth(Run(l, Exchange(t, |ts|)), ts + [t])
  {
    Unfold3(l, Send(t), Deliver(|ts|, true), AckArrives(|ts|));
  }

  /** An old copy, two telegrams late, is refused, and the refusal fails the send of a telegram that arrived. */
  lemma LateCopyFailsSend<T>(x: T, y: T, z: T)
    ensures var l := Run(Run(Run(New(), Exchange(x, 0)), Exchange(y, 1)), [Send(z), Deliver(2, true), Deliver(0, true)]);
            && l.accepted == [x, y, z]
            && Step(l, AckArrives(3)).phase == Rejected(z)
  {
    hide Exchange;
    ExchangeIsSmooth(New(), [], x);
    var a := Run(New(), Exchange(x, 0));
    assert [] + [x] == [x];
    ExchangeIsSmooth(a, [x], y);
    assert [x] + [y] == [x, y];
    LateCopy(Run(a, Exchange(y, 1)), [x, y], z);
  }

  lemma LateCopy<T>(l: Link<T>, ts: seq<T>, z: T)
    requires Smooth(l, ts) && |ts| == 2
    ensures var m := Run(l, [Send(z), Deliver(2, true), Deliver(0, true)]);
            m.accepted == ts + [z] && Step(m, AckArrives(3)).phase == Rejected(z)
  {
    Unfold3(l, Send(z), Deliver(2, true), Deliver(0, true));
    assert Check(3, 0) == Invalid;
  }

  /** Without room a telegram is acknowledged and lost. */
  lemma NoRoomLosesTelegram<T>(x: T)
    ensures var l := Run(New(), [Send(x), Deliver(0, false), AckArrives(0)]);
            l.phase == Idle && l.done == [x] && l.accepted == [x] && l.queued == []
  {
    Unfold3(New(), Send(x), Deliver(0, false), AckArrives(0));
  }

  // ---- Two attempts per telegram ----

  /** Copies leave in order, at most two of one telegram; of the current one there are as many as attempts were made. */
  predicate Tried<T>(l: Link<T>) {
    && (forall i, j :: 0 <= i <= j < |l.sent| ==> l.sent[i].number <= l.sent[j].number)
    && (forall i, j :: 0 <= i && i + 2 <= j < |l.sent| ==> l.sent[i].number < l.sent[j].number)
    && (l.phase.Idle? ==> forall i :: 0 <= i < |l.sent| ==> l.sent[i].number < |l.done|)
    && (!l.phase.Idle? ==> CopiesNow(l, 1) || CopiesNow(l, 2))
    && (l.phase.Waiting? ==> CopiesNow(l, if l.phase.retried then 2 else 1))
    && (l.phase.TimedOut? ==> CopiesNow(l, 2))
  }

  /** Exactly the last `n` requests carry the telegram being sent. */
  predicate CopiesNow<T>(l: Link<T>, n: nat) {
    n <= |l.sent| && forall i :: 0 <= i < |l.sent| ==>
                       if i < |l.sent| - n then l.sent[i].number < |l.done| else l.sent[i].number == |l.done|
  }

  lemma SameServer<T>(l: Link<T>, m: Link<T>)
    requires Tried(l) && m.sent == l.sent && m.phase == l.phase && m.done == l.done
    ensures Tried(m)
  {
  }

  lemma FirstTry<T>(l: Link<T>, t: T)
    requires Tried(l) && l.phase.Idle?
    ensures Tried(Transmit(l, t, false))
  {
    var next := Transmit(l, t, false);
    assert CopiesNow(next, 1);
  }

  lemma SecondTry<T>(l: Link<T>)
    requires Tried(l) && l.phase.Waiting? && !l.phase.retried
    ensures Tried(Transmit(l, l.phase.telegram, true))
  {
    assert CopiesNow(l, 1);
    var next := Transmit(l, l.phase.telegram, true);
    assert CopiesNow(next, 2);
  }

  lemma AnswerTried<T>(l: Link<T>, ok: bool)
    requires Tried(l) && l.phase.Waiting?
    ensures Tried(Acknowledge(l, ok))
  {
    var n := if l.phase.retried then 2 else 1;
    assert CopiesNow(l, n);
    var next := Acknowledge(l, ok);
    if !ok {
      assert CopiesNow(next, n);
    }
  }

  lemma LastTimeout<T>(l: Link<T>)
    requires Tried(l) && l.phase.Waiting? && l.phase.retried
    ensures Tried(l.(phase := TimedOut(l.phase.telegram)))
  {
    assert CopiesNow(l, 2);
    assert CopiesNow(l.(phase := TimedOut(l.phase.telegram)), 2);
  }

  lemma StepTried<T>(l: Link<T>, e: Event<T>)
    requires Tried(l)
    ensures Tried(Step(l, e))
  {
    hide Tried, Next, Check, Transmit, Acknowledge;
    match e {
      case Send(t) =>
        if l.phase.Idle? {
          FirstTry(l, t);
        }
      case Timeout =>
        if l.phase.Waiting? && l.phase.retried {
          LastTimeout(l);
        } else if l.phase.Waiting? {
          SecondTry(l);
        }
      case Deliver(_, _) => SameServer(l, Step(l, e));
      case AckArrives(j) =>
        if l.phase.Waiting? && j < |l.acks| {
          AnswerTried(l, l.acks[j].ok);
        }
    }
  }

  lemma {:induction false} RunTried<T>(l: Link<T>, events: seq<Event<T>>)
    requires Tried(l)
    ensures Tried(Run(l, events))
    decreases |events|
  {
    hide Tried, Step;
    if events != [] {
      StepTried(l, events[0]);
      RunTried(Step(l, events[0]), events[1..]);
    }
  }

  /**
   * In every session, whatever the network does: telegrams leave in order, none more than twice, and a send times out
   * only after its second copy.
   */
  lemma TwoAttempts<T>(events: seq<Event<T>>)
    ensures var last := Run(New(), events);
            && (forall i, j :: 0 <= i <= j < |last.sent| ==> last.sent[i].number <= last.sent[j].number)
            && (forall i, j :: 0 <= i && i + 2 <= j < |last.sent| ==> last.sent[i].number != last.sent[j].number)
            && (last.phase.TimedOut? ==>
                  && |last.sent| >= 2
                  && last.sent[|last.sent| - 2].number == last.sent[|last.sent| - 1].number == |last.done|)
  {
    hide Run;
    RunTried(New(), events);
  }

  /** After a send has failed the server sends nothing more and reports nothing more. */
  lemma {:induction false} FailedSendEnds<T>(l: Link<T>, events: seq<Event<T>>)
    requires l.phase.Rejected? || l.phase.TimedOut?
    ensures var last := Run(l, events); last.phase == l.phase && last.sent == l.sent && last.done == l.done
    decreases |events|
  {
    if events != [] {
      var next := Step(l, events[0]);
      assert next.phase == l.phase && next.sent == l.sent && next.done == l.done;
      hide Step;
      FailedSendEnds(next, events[1..]);
    }
  }
}
