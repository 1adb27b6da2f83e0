/**
 * Telegrams from the tunnel server to a client: one request in flight, acknowledged, and repeated once when the
 * acknowledgement does not come. The counters have eight bits. The network may lose, delay, repeat and reorder
 * requests and acknowledgements: whatever was sent once can arrive at any later time, any number of times.
 */
module TunnelLink {
  import opened Bytes

  datatype Verdict = Valid | Duplicate | Invalid

  /** A request on its way. `number` records which telegram of the session it carries; only `counter` is sent. */
  datatype Request<T> = Request(counter: byte, telegram: T, number: nat)

  /**
   * An acknowledgement on its way. `number` records the telegram that caused it, and `lag` how many telegrams that was
   * behind the one the client expected; the server reads only the status.
   */
  datatype Ack = Ack(ok: bool, number: nat, lag: int)

  datatype Phase<T> = Idle | Waiting(telegram: T, retried: bool) | Rejected(telegram: T) | TimedOut(telegram: T)

  datatype Link<T> = Link(
    sendSeq: byte,
    phase: Phase<T>,
    done: seq<T>,
    sent: seq<Request<T>>,
    expected: byte,
    accepted: seq<T>,
    queued: seq<T>,
    acks: seq<Ack>)

  /** `room` tells whether the client's cEMI parser and its queue take the telegram. */
  datatype Event<T> = Send(telegram: T) | Timeout | Deliver(copy: nat, room: bool) | AckArrives(ack: nat)

  function New<T>(): (l: Link<T>) {
    Link(0, Idle, [], [], 0, [], [], [])
  }

  // ---- The client ----

  function Next(counter: byte): (r: byte) {
    (counter + 1) % 256
  }

  function Check(expected: byte, received: byte): (v: Verdict) {
    if received == expected then Valid
    else if received == (expected + 255) % 256 then Duplicate
    else Invalid
  }

  /** A request arrives: a valid one is passed on, a valid or duplicate one acknowledged, any other refused. */
  function Receive<T>(l: Link<T>, r: Request<T>, room: bool): (next: Link<T>) {
    var v := Check(l.expected, r.counter);
    var answered := l.(acks := l.acks + [Ack(v != Invalid, r.number, |l.accepted| - r.number)]);
    if v == Valid then
      answered.(expected := Next(l.expected), accepted := l.accepted + [r.telegram],
                queued := l.queued + if room then [r.telegram] else [])
    else answered
  }

  // ---- The server ----

  function Transmit<T>(l: Link<T>, t: T, retried: bool): (next: Link<T>) {
    l.(sent := l.sent + [Request(l.sendSeq, t, |l.done|)], phase := Waiting(t, retried))
  }

  /** Any acknowledgement ends the wait: a positive one with success, a negative one with failure. */
  function Acknowledge<T>(l: Link<T>, ok: bool): (next: Link<T>)
    requires l.phase.Waiting?
  {
    if ok then l.(sendSeq := Next(l.sendSeq), done := l.done + [l.phase.telegram], phase := Idle)
    else l.(phase := Rejected(l.phase.telegram))
  }

  function Step<T>(l: Link<T>, e: Event<T>): (next: Link<T>) {
    match e
    case Send(t) => if l.phase.Idle? then Transmit(l, t, false) else l
    case Timeout =>
      if !l.phase.Waiting? then l
      else if l.phase.retried then l.(phase := TimedOut(l.phase.telegram))
      else Transmit(l, l.phase.telegram, true)
    case Deliver(i, room) => if i < |l.sent| then Receive(l, l.sent[i], room) else l
    case AckArrives(j) => if l.phase.Waiting? && j < |l.acks| then Acknowledge(l, l.acks[j].ok) else l
  }

  function Run<T>(l: Link<T>, events: seq<Event<T>>): (last: Link<T>)
    decreases |events|
  {
    if events == [] then l else Run(Step(l, events[0]), events[1..])
  }

  /** Every telegram the server has begun to send. */
  function Log<T>(l: Link<T>): (ts: seq<T>) {
    l.done + if l.phase.Idle? then [] else [l.phase.telegram]
  }

  // ---- Every reachable link ----

  predicate RequestsInLog<T(==)>(l: Link<T>) {
    forall i :: 0 <= i < |l.sent| ==>
      && l.sent[i].number < |Log(l)| && l.sent[i].counter == l.sent[i].number % 256
      && l.sent[i].telegram == Log(l)[l.sent[i].number]
  }

  predicate Sound<T(==)>(l: Link<T>) {
    && l.sendSeq == |l.done| % 256 && l.expected == |l.accepted| % 256
    && RequestsInLog(l)
    && (forall j :: 0 <= j < |l.acks| ==> l.acks[j].number < |Log(l)|)
  }

  lemma Counts(n: nat)
    ensures Next(n % 256) == (n + 1) % 256
  {
    assert n == 256 * (n / 256) + n % 256;
    if n % 256 < 255 {
      ModUnique(n + 1, 256, n / 256, n % 256 + 1);
    } else {
      ModUnique(n + 1, 256, n / 256 + 1, 0);
    }
  }

  lemma LogGrows<T>(l: Link<T>, e: Event<T>)
    ensures Log(l) <= Log(Step(l, e))
  {
    hide Next, Check;
  }

  lemma StepSound<T>(l: Link<T>, e: Event<T>)
    requires Sound(l)
    ensures Sound(Step(l, e))
  {
    hide Next, Check;
    Counts(|l.done|);
    Counts(|l.accepted|);
    LogGrows(l, e);
  }

  // ---- In order, and at most once ----

  /** Fewer than 256 telegrams apart. */
  predicate Near(n: nat, a: nat) {
    n < a + 256 && a < n + 256
  }

  predicate NearDelivery<T>(l: Link<T>, e: Event<T>) {
    e.Deliver? && e.copy < |l.sent| ==> Near(l.sent[e.copy].number, |l.accepted|)
  }

  /** No request arrives 256 or more telegrams late. */
  predicate Within<T>(l: Link<T>, events: seq<Event<T>>)
    decreases |events|
  {
    events == [] || (NearDelivery(l, events[0]) && Within(Step(l, events[0]), events[1..]))
  }

  lemma Congruent(n: nat, a: nat)
    ensures Check(a % 256, n % 256) == Valid <==> (n - a) % 256 == 0
    ensures Near(n, a) ==> (Check(a % 256, n % 256) == Valid <==> n == a)
    ensures n == a || n + 1 == a ==> Check(a % 256, n % 256) != Invalid
  {
    SameRemainder(n, a);
    if n + 1 == a {
      Counts(n);
    }
  }

  lemma SameRemainder(n: nat, a: nat)
    ensures n % 256 == a % 256 <==> (n - a) % 256 == 0
  {
    var d := n / 256 - a / 256;
    assert n - a == 256 * d + (n % 256 - a % 256);
  }

  /** A request is accepted exactly when the number of telegrams between it and the client is a multiple of 256. */
  lemma AcceptedEvery256<T>(l: Link<T>, i: nat, room: bool)
    requires Sound(l) && i < |l.sent|
    ensures Step(l, Deliver(i, room)).accepted
            == l.accepted + if (l.sent[i].number - |l.accepted|) % 256 == 0 then [Log(l)[l.sent[i].number]] else []
  {
    Congruent(l.sent[i].number, |l.accepted|);
    assert l.accepted + [] == l.accepted;
  }

  lemma StepInOrder<T>(l: Link<T>, e: Event<T>)
    requires Sound(l) && l.accepted <= Log(l) && NearDelivery(l, e)
    ensures Step(l, e).accepted <= Log(Step(l, e))
  {
    hide Next, Check;
    LogGrows(l, e);
    if e.Deliver? && e.copy < |l.sent| {
      Congruent(l.sent[e.copy].number, |l.accepted|);
    }
  }

  /**
   * Whatever the network does to requests and acknowledgements, as long as no request is 256 telegrams late: what
   * the client accepted is the beginning of what the server set out to send, in order and without repetition.
   */
  lemma {:induction false} InOrderAtMostOnce<T>(l: Link<T>, events: seq<Event<T>>)
    requires Sound(l) && l.accepted <= Log(l) && Within(l, events)
    ensures var last := Run(l, events); Sound(last) && last.accepted <= Log(last)
    decreases |events|
  {
    hide Step, Sound, NearDelivery, Log;
    if events != [] {
      StepSound(l, events[0]);
      StepInOrder(l, events[0]);
      InOrderAtMostOnce(Step(l, events[0]), events[1..]);
    }
  }

  // ---- Both ends of one channel ----

  class Channel<T> {
    var sendSeq: byte
    var phase: Phase<T>
    var done: seq<T>
    var sent: seq<Request<T>>
    var expected: byte
    var accepted: seq<T>
    var queued: seq<T>
    var acks: seq<Ack>

    ghost function Value(): (l: Link<T>)
      reads this
    {
      Link(sendSeq, phase, done, sent, expected, accepted, queued, acks)
    }

    constructor ()
      ensures Value() == New()
    {
      sendSeq, phase, done, sent := 0, Idle, [], [];
      expected, accepted, queued, acks := 0, [], [], [];
    }

    method ValidateSequence(received: byte) returns (v: Verdict)
      modifies this`expected
      ensures v == Check(old(expected), received)
      ensures expected == if v == Valid then Next(old(expected)) else old(expected)
    {
      var current: int := expected;
      if received == current {
        expected := (current + 1) % 256;
        return Valid;
      } else if received == (current + 255) % 256 {
        return Duplicate;
      }
      return Invalid;
    }

    method HandleRequest(r: Request<T>, room: bool)
      modifies this
      ensures Value() == Receive(old(Value()), r, room)
    {
      var verdict := ValidateSequence(r.counter);
      match verdict {
        case Valid =>
          acks := acks + [Ack(true, r.number, |accepted| - r.number)];
          accepted := accepted + [r.telegram];
          if room {
            queued := queued + [r.telegram];
          }
        case Duplicate => acks := acks + [Ack(true, r.number, |accepted| - r.number)];
        case Invalid => acks := acks + [Ack(false, r.number, |accepted| - r.number)];
      }
      assert old(queued) + [] == old(queued);
    }

    /** An acknowledgement arrives at the server; nobody may be waiting for one. */
    method HandleAck(ok: bool)
      modifies this
      ensures Value() == if old(phase).Waiting? then Acknowledge(old(Value()), ok) else old(Value())
    {
      if phase.Waiting? {
        if ok {
          var counter: int := sendSeq;
          sendSeq := (counter + 1) % 256;
          done := done + [phase.telegram];
          phase := Idle;
        } else {
          phase := Rejected(phase.telegram);
        }
      }
    }

    /** What the network does during one wait. */
    method Happen(e: Event<T>)
      requires e.Deliver? || e.AckArrives?
      modifies this
      ensures Value() == Step(old(Value()), e)
    {
      match e {
        case Deliver(i, room) =>
          if i < |sent| {
            HandleRequest(sent[i], room);
          }
        case AckArrives(j) =>
          if j < |acks| {
            HandleAck(acks[j].ok);
          }
      }
    }

    /** `send_to_session`: two attempts with one counter. `waits` holds what happens after each of them. */
    method SendToSession(t: T, waits: (seq<Event<T>>, seq<Event<T>>))
      requires phase.Idle?
      requires forall e :: e in waits.0 + waits.1 ==> e.Deliver? || e.AckArrives?
      modifies this
      ensures Value() == Run(old(Value()), [Send(t)] + waits.0 + [Timeout] + waits.1 + [Timeout])
    {
      hide Step;
      var attempt := 0;
      ghost var past: seq<Event<T>> := [];
      while attempt < 2
        invariant attempt <= 2
        invariant attempt == 0 ==> past == [] && phase.Idle?
        invariant attempt == 1 ==> past == [Send(t)] + waits.0 && (phase.Waiting? ==> phase == Waiting(t, false))
        invariant attempt == 2 ==> past == [Send(t)] + waits.0 + [Timeout] + waits.1
                                   && (phase.Waiting? ==> phase == Waiting(t, true))
        invariant Value() == Run(old(Value()), past)
      {
        ghost var begin := if attempt == 0 then Send(t) else Timeout;
        BeginStep(Value(), t, attempt);
        if attempt == 0 || phase.Waiting? {
          sent := sent + [Request(sendSeq, t, |done|)];
          phase := Waiting(t, attempt == 1);
        }
        RunSnoc(old(Value()), past, begin);
        past := past + [begin];
        var events := if attempt == 0 then waits.0 else waits.1;
        var i := 0;
        ghost var before := past;
        while i < |events|
          invariant i <= |events| && past == before + events[..i]
          invariant Value() == Run(old(Value()), past)
          invariant phase.Waiting? ==> phase == Waiting(t, attempt == 1)
        {
          WaitKeeps(Value(), events[i]);
          Happen(events[i]);
          RunSnoc(old(Value()), past, events[i]);
          past := past + [events[i]];
          i := i + 1;
        }
        assert events[..i] == events;
        attempt := attempt + 1;
      }
      LastTimeout(Value());
      if phase.Waiting? {
        phase := TimedOut(t);
      }
      RunSnoc(old(Value()), past, Timeout);
    }
  }

  lemma {:induction false} RunSnoc<T>(l: Link<T>, events: seq<Event<T>>, e: Event<T>)
    ensures Run(l, events + [e]) == Step(Run(l, events), e)
    decreases |events|
  {
    hide Step;
    if events == [] {
      assert ([] + [e])[1..] == [];
    } else {
      assert (events + [e])[1..] == events[1..] + [e];
      RunSnoc(Step(l, events[0]), events[1..], e);
    }
  }

  lemma BeginStep<T>(l: Link<T>, t: T, attempt: nat)
    requires attempt == 0 ==> l.phase.Idle?
    requires attempt == 1 ==> (l.phase.Waiting? ==> l.phase == Waiting(t, false))
    ensures attempt == 0 ==> Step(l, Send(t)) == Transmit(l, t, false)
    ensures attempt == 1 ==> Step(l, Timeout) == if l.phase.Waiting? then Transmit(l, t, true) else l
  {
  }

  lemma WaitKeeps<T>(l: Link<T>, e: Event<T>)
    requires e.Deliver? || e.AckArrives?
    ensures Step(l, e).phase.Waiting? ==> Step(l, e).phase == l.phase
  {
  }

  lemma LastTimeout<T>(l: Link<T>)
    requires l.phase.Waiting? ==> l.phase.retried
    ensures Step(l, Timeout) == if l.phase.Waiting? then l.(phase := TimedOut(l.phase.telegram)) else l
  {
  }
}
