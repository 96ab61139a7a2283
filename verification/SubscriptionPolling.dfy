/**
 * Runs of a subscription's poller against its server queue (packages/gateway/src/polling.ts).
 * The window of a subscription is [0, 2^53) from the beginning, and every event of an answer goes
 * to the subscription callback.
 */
module SubscriptionPolling {
  import opened Wrappers
  import opened Windows
  import opened Polling

  /** The server's queue numbers its events 0, 1, 2, ... and retains those at or above `floor`. */
  datatype System = System(
    client: Client,
    log: seq<Event>,
    floor: int,
    polls: multiset<int>,
    answers: multiset<seq<Event>>)

  datatype Step =
    | Subscribe
    | Unsubscribe
    | Tick(timer: nat)
    | Publish(body: string)
    | Serve(offset: int, floor: int, events: seq<Event>)
    | Arrive(events: seq<Event>)
    | LosePoll(offset: int, error: string)
    | LoseAnswer(events: seq<Event>, error: string)

  function Init(queueId: nat): System {
    System(NewClient(Some(queueId)), [], 0, multiset{}, multiset{})
  }

  predicate Retained(s: System, e: Event) {
    s.floor <= e.id < |s.log| && s.log[e.id] == e
  }

  predicate Enabled(s: System, step: Step) {
    match step
    case Subscribe => s.client.Subscribe().Some?
    case Unsubscribe => true
    case Tick(timer) => timer in s.client.live
    case Publish(body) => |s.log| < UNBOUNDED
    case Serve(offset, floor, events) =>
      && offset in s.polls
      && s.floor <= floor && (floor <= s.floor || floor <= offset)
      && forall e :: e in events ==> Retained(s, e)
    case Arrive(events) => events in s.answers
    case LosePoll(offset, error) => offset in s.polls
    case LoseAnswer(events, error) => events in s.answers
  }

  /** A step that cannot happen changes nothing. */
  function Take(s: System, step: Step): System {
    if !Enabled(s, step) then s
    else
      match step
      case Subscribe => s.(client := s.client.Subscribe().value)
      case Unsubscribe => s.(client := s.client.Stop())
      case Tick(timer) => s.(polls := s.polls + multiset{s.client.window.start})
      case Publish(body) => s.(log := s.log + [Event(|s.log|, body)])
      case Serve(offset, floor, events) =>
        s.(polls := s.polls - multiset{offset}, floor := floor, answers := s.answers + multiset{events})
      case Arrive(events) => s.(answers := s.answers - multiset{events}, client := s.client.DeliverAll(events))
      case LosePoll(offset, error) => s.(polls := s.polls - multiset{offset}, client := s.client.Fail(error))
      case LoseAnswer(events, error) => s.(answers := s.answers - multiset{events}, client := s.client.Fail(error))
  }

  function Run(s: System, steps: seq<Step>): System {
    if steps == [] then s else Take(Run(s, steps[..|steps| - 1]), steps[|steps| - 1])
  }

  lemma {:induction false} RunSnoc(s: System, steps: seq<Step>, step: Step)
    ensures Run(s, steps + [step]) == Take(Run(s, steps), step)
  {
    assert (steps + [step])[..|steps|] == steps;
  }

  // ---------------------------------------------------------------------------
  // Any run: nothing is lost
  // ---------------------------------------------------------------------------

  ghost predicate InLog(events: seq<Event>, log: seq<Event>) {
    forall e :: e in events ==> e.id < |log| && log[e.id] == e
  }

  /** Collected events have been emitted, and everything below start has been collected. */
  ghost predicate ClientInv(c: Client, log: seq<Event>) {
    && c.queueId.Some?
    && c.window.end == UNBOUNDED
    && c.window.Settled()
    && 0 <= c.window.start
    && (forall k :: 0 <= k < c.window.start ==> k in c.window.collected)
    && (forall k :: k in c.window.collected ==> 0 <= k < |log| && log[k] in c.emitted)
    && (forall e :: e in c.emitted ==> e.id in c.window.collected)
    && InLog(c.emitted, log)
    && c.live == (if c.polling.Some? then {c.polling.value} else {})
  }

  ghost predicate Inv(s: System) {
    && ClientInv(s.client, s.log)
    && |s.log| <= UNBOUNDED
    && (forall k :: 0 <= k < |s.log| ==> s.log[k].id == k)
    && s.floor <= s.client.window.start
    && (forall o :: o in s.polls ==> o <= s.client.window.start)
    && (forall events :: events in s.answers ==> InLog(events, s.log))
    && (s.client.subscribers > 0 || (s.client.live == {} && s.polls == multiset{} && s.answers == multiset{}))
  }

  lemma DeliverKeeps(c: Client, e: Event, log: seq<Event>)
    requires ClientInv(c, log) && InLog([e], log) && c.subscribers > 0
    requires e.id < |log| ==> log[e.id].id == e.id
    ensures ClientInv(c.Deliver(e), log)
    ensures c.window.start <= c.Deliver(e).window.start
    ensures c.Deliver(e).emitted == c.emitted + [e] && c.Deliver(e).subscribers == c.subscribers
    ensures c.Deliver(e).live <= c.live
  {
    assert e in [e];
    var r := c.Deliver(e);
    assert r.window == c.window.Slide(e.id, e);
    assert r.emitted == c.emitted + [e];
    forall k | k in r.window.collected
      ensures 0 <= k < |log| && log[k] in r.emitted
    {
      if k != e.id {
        assert k in c.window.collected;
      }
    }
    forall k | 0 <= k < r.window.start
      ensures k in r.window.collected
    {
      if k >= c.window.start {
        assert k in r.window.collected.Keys;
      }
    }
  }

  /** Delivering hands every event to the callback, in order. */
  lemma {:induction false} DeliverAllEmits(c: Client, events: seq<Event>)
    requires c.queueId.Some? && c.subscribers > 0
    ensures var d := c.DeliverAll(events);
      d.emitted == c.emitted + events && d.subscribers == c.subscribers && d.queueId == c.queueId
  {
    if events == [] {
      assert c.emitted + events == c.emitted;
    } else {
      var n := |events| - 1;
      DeliverAllEmits(c, events[..n]);
      assert c.emitted + events == c.emitted + events[..n] + [events[n]];
    }
  }

  lemma {:induction false} DeliverAllKeeps(c: Client, events: seq<Event>, log: seq<Event>)
    requires ClientInv(c, log) && InLog(events, log) && c.subscribers > 0
    requires forall k :: 0 <= k < |log| ==> log[k].id == k
    ensures ClientInv(c.DeliverAll(events), log)
    ensures c.window.start <= c.DeliverAll(events).window.start
    ensures c.DeliverAll(events).emitted == c.emitted + events
    ensures c.DeliverAll(events).subscribers == c.subscribers && c.DeliverAll(events).live <= c.live
  {
    DeliverAllEmits(c, events);
    if events != [] {
      var n := |events| - 1;
      assert InLog(events[..n], log) && InLog([events[n]], log);
      DeliverAllKeeps(c, events[..n], log);
      DeliverKeeps(c.DeliverAll(events[..n]), events[n], log);
    }
  }

  lemma ArriveKeeps(s: System, events: seq<Event>)
    requires Inv(s) && events in s.answers
    ensures Inv(Take(s, Arrive(events)))
    ensures s.client.window.start <= Take(s, Arrive(events)).client.window.start
  {
    DeliverAllKeeps(s.client, events, s.log);
    var r := Take(s, Arrive(events));
    assert r.polls == s.polls && r.floor == s.floor && r.log == s.log;
    assert forall a :: a in r.answers ==> a in s.answers;
  }

  lemma PublishKeeps(s: System, body: string)
    requires Inv(s)
    ensures Inv(Take(s, Publish(body)))
  {
    var r := Take(s, Publish(body));
    assert forall k :: 0 <= k < |s.log| ==> r.log[k] == s.log[k];
    assert ClientInv(s.client, s.log);
    assert ClientInv(r.client, r.log);
  }

  lemma TickKeeps(s: System, timer: nat)
    requires Inv(s)
    ensures Inv(Take(s, Tick(timer)))
  {
    assert forall o :: o in Take(s, Tick(timer)).polls ==> o in s.polls || o == s.client.window.start;
  }

  lemma ServeKeeps(s: System, offset: int, floor: int, events: seq<Event>)
    requires Inv(s)
    ensures Inv(Take(s, Serve(offset, floor, events)))
  {
    var r := Take(s, Serve(offset, floor, events));
    assert forall o :: o in r.polls ==> o in s.polls;
    assert forall a :: a in r.answers ==> a in s.answers || (a == events && Enabled(s, Serve(offset, floor, events)));
  }

  lemma ClientChangeKeeps(s: System, client: Client)
    requires Inv(s) && ClientInv(client, s.log) && client.window == s.client.window
    requires client.subscribers > 0 || (client.subscribers == s.client.subscribers && client.live <= s.client.live)
    ensures Inv(s.(client := client))
  {
  }

  lemma FewerUnderWayKeeps(s: System, polls: multiset<int>, answers: multiset<seq<Event>>)
    requires Inv(s) && polls <= s.polls && answers <= s.answers
    ensures Inv(s.(polls := polls, answers := answers))
  {
    assert forall o :: o in polls ==> o in s.polls;
    assert forall a :: a in answers ==> a in s.answers;
  }

  /** Steps that touch neither the window nor the log. */
  lemma OtherStepKeeps(s: System, step: Step)
    requires Inv(s) && (step.Subscribe? || step.Unsubscribe? || step.LosePoll? || step.LoseAnswer?)
    ensures Inv(Take(s, step)) && Take(s, step).client.window == s.client.window
  {
    if Enabled(s, step) {
      var r := Take(s, step);
      FewerUnderWayKeeps(s, r.polls, r.answers);
      ClientChangeKeeps(s.(polls := r.polls, answers := r.answers), r.client);
    }
  }

  lemma TakeKeeps(s: System, step: Step)
    requires Inv(s)
    ensures Inv(Take(s, step))
    ensures s.client.window.start <= Take(s, step).client.window.start
  {
    match step
    case Arrive(events) =>
      if events in s.answers {
        ArriveKeeps(s, events);
      }
    case Publish(body) => PublishKeeps(s, body);
    case Tick(timer) => TickKeeps(s, timer);
    case Serve(offset, floor, events) => ServeKeeps(s, offset, floor, events);
    case Subscribe => OtherStepKeeps(s, step);
    case Unsubscribe => OtherStepKeeps(s, step);
    case LosePoll(_, _) => OtherStepKeeps(s, step);
    case LoseAnswer(_, _) => OtherStepKeeps(s, step);
  }

  lemma {:induction false} RunKeeps(s: System, steps: seq<Step>)
    requires Inv(s)
    ensures Inv(Run(s, steps)) && s.client.window.start <= Run(s, steps).client.window.start
  {
    if steps != [] {
      var n := |steps| - 1;
      RunKeeps(s, steps[..n]);
      TakeKeeps(Run(s, steps[..n]), steps[n]);
    }
  }

  lemma UnemittedIsRetained(s: System, e: Event)
    requires Inv(s) && e in s.log && e !in s.client.emitted
    ensures Retained(s, e)
  {
    var k :| 0 <= k < |s.log| && s.log[k] == e;
    assert k !in s.client.window.collected;
  }

  lemma BelowStartIsEmitted(s: System, k: int)
    requires Inv(s) && 0 <= k < s.client.window.start
    ensures k < |s.log| && s.log[k] in s.client.emitted
  {
    assert k in s.client.window.collected;
  }

  /**
   * In every run, with polls that overlap, fail or arrive late and answers that have gaps or
   * repeat: every id below start has been emitted, the server has discarded nothing at or above
   * start, so every log entry not yet emitted is still retained; start never decreases; and at most one
   * timer is live.
   */
  lemma {:induction false} NothingIsLost(queueId: nat, steps: seq<Step>, later: seq<Step>)
    ensures var s := Run(Init(queueId), steps);
      && s.client.window.start <= |s.log| && s.client.window.end == 9007199254740992
      && (forall k :: 0 <= k < s.client.window.start ==> s.log[k] in s.client.emitted)
      && s.floor <= s.client.window.start
      && (forall e :: e in s.log && e !in s.client.emitted ==> Retained(s, e))
      && (forall e :: e in s.client.emitted ==> e in s.log)
      && s.client.window.start <= Run(s, later).client.window.start
      && s.client.live == (if s.client.polling.Some? then {s.client.polling.value} else {})
  {
    RunKeeps(Init(queueId), steps);
    var s := Run(Init(queueId), steps);
    RunKeeps(s, later);
    forall e | e in s.log && e !in s.client.emitted
      ensures Retained(s, e)
    {
      UnemittedIsRetained(s, e);
    }
    if s.client.window.start > 0 {
      BelowStartIsEmitted(s, s.client.window.start - 1);
    }
    forall k | 0 <= k < s.client.window.start
      ensures s.log[k] in s.client.emitted
    {
      BelowStartIsEmitted(s, k);
    }
  }

  // ---------------------------------------------------------------------------
  // Any run: what ends polling, and what starts it again
  // ---------------------------------------------------------------------------

  /**
   * A failed poll, lost on the way there or back, stops the timer and hands its error to the
   * callback; nothing that was received is touched, and subscribing is possible again.
   */
  lemma {:induction false} FailedPollStops(queueId: nat, steps: seq<Step>, step: Step)
    requires (step.LosePoll? || step.LoseAnswer?) && Enabled(Run(Init(queueId), steps), step)
    ensures var c, d := Run(Init(queueId), steps).client, Take(Run(Init(queueId), steps), step).client;
      && d.live == {} && d.polling.None? && d.Subscribe().Some?
      && c.subscribers > 0 && d.failures == c.failures + [step.error]
      && d.window == c.window && d.emitted == c.emitted && d.subscribers == c.subscribers
  {
    RunKeeps(Init(queueId), steps);
  }

  /** Subscribing is possible exactly while no timer runs, and starts one. */
  lemma {:induction false} SubscribeStarts(queueId: nat, steps: seq<Step>)
    ensures var c := Run(Init(queueId), steps).client;
      && (c.Subscribe().Some? <==> c.live == {})
      && (c.Subscribe().Some? ==>
            var d := c.Subscribe().value;
            && d.polling == Some(c.timers) && d.live == {c.timers} && d.timers == c.timers + 1
            && d.subscribers == c.subscribers + 1
            && d.window == c.window && d.emitted == c.emitted && d.failures == c.failures)
  {
    RunKeeps(Init(queueId), steps);
  }

  /** Unsubscribing stops the timer and keeps what was received. */
  lemma {:induction false} UnsubscribeStops(queueId: nat, steps: seq<Step>)
    ensures var c, d := Run(Init(queueId), steps).client, Take(Run(Init(queueId), steps), Unsubscribe).client;
      && d.live == {} && d.polling.None? && d.Subscribe().Some?
      && d.window == c.window && d.emitted == c.emitted && d.failures == c.failures
  {
    RunKeeps(Init(queueId), steps);
  }

  // ---------------------------------------------------------------------------
  // Any run: polling never ends silently
  // ---------------------------------------------------------------------------

  /** Every subscription but the one that polls now was ended by an error that the callback got. */
  ghost predicate Told(c: Client) {
    c.subscribers <= |c.failures| + (if c.polling.Some? then 1 else 0)
  }

  lemma DeliverKeepsPolling(c: Client, e: Event, log: seq<Event>)
    requires ClientInv(c, log) && InLog([e], log) && c.subscribers > 0
    requires e.id < |log| ==> log[e.id].id == e.id
    requires |log| < UNBOUNDED
    ensures c.Deliver(e).polling == c.polling && c.Deliver(e).failures == c.failures
  {
    DeliverKeeps(c, e, log);
    var window := c.Deliver(e).window;
    assert window.start > 0 ==> window.start - 1 in window.collected;
  }

  lemma {:induction false} DeliverAllKeepsPolling(c: Client, events: seq<Event>, log: seq<Event>)
    requires ClientInv(c, log) && InLog(events, log) && c.subscribers > 0
    requires forall k :: 0 <= k < |log| ==> log[k].id == k
    requires |log| < UNBOUNDED
    ensures c.DeliverAll(events).polling == c.polling && c.DeliverAll(events).failures == c.failures
  {
    if events != [] {
      var n := |events| - 1;
      assert InLog(events[..n], log) && InLog([events[n]], log);
      DeliverAllKeepsPolling(c, events[..n], log);
      DeliverAllKeeps(c, events[..n], log);
      DeliverKeepsPolling(c.DeliverAll(events[..n]), events[n], log);
    }
  }

  lemma ToldStep(s: System, step: Step)
    requires Inv(s) && Told(s.client) && |s.log| < UNBOUNDED && !step.Unsubscribe?
    ensures Told(Take(s, step).client)
  {
    if step.Arrive? && step.events in s.answers {
      DeliverAllKeeps(s.client, step.events, s.log);
      DeliverAllKeepsPolling(s.client, step.events, s.log);
    }
  }

  /**
   * Unless the subscriber ends it, polling only ever stops with an error that the callback
   * receives: in any such run over a queue of fewer than 2^53 events, a subscription whose timer
   * does not run has been told.
   */
  lemma {:induction false} NeverEndsSilently(queueId: nat, steps: seq<Step>)
    requires forall i :: 0 <= i < |steps| ==> !steps[i].Unsubscribe?
    requires |Run(Init(queueId), steps).log| < 9007199254740992
    ensures var c := Run(Init(queueId), steps).client;
      Told(c) && (c.subscribers > 0 && c.live == {} ==> c.failures != [])
  {
    RunKeeps(Init(queueId), steps);
    if steps != [] {
      var n := |steps| - 1;
      var before := Run(Init(queueId), steps[..n]);
      assert |before.log| <= |Take(before, steps[n]).log|;
      RunKeeps(Init(queueId), steps[..n]);
      NeverEndsSilently(queueId, steps[..n]);
      ToldStep(before, steps[n]);
    }
  }

  // ---------------------------------------------------------------------------
  // Any run: when the callback has seen a prefix of the log
  // ---------------------------------------------------------------------------

  /** If the step delivers an answer, its ids count up from the client's start. */
  predicate Consecutive(s: System, step: Step) {
    step.Arrive? && step.events in s.answers ==>
      forall j :: 0 <= j < |step.events| ==> step.events[j].id == s.client.window.start + j
  }

  /** Every answer of the run is consecutive when it arrives. */
  predicate ConsecutiveRun(s: System, steps: seq<Step>) {
    steps == []
    || (ConsecutiveRun(s, steps[..|steps| - 1]) && Consecutive(Run(s, steps[..|steps| - 1]), steps[|steps| - 1]))
  }

  ghost predicate CountsUp(events: seq<Event>) {
    forall i :: 0 <= i < |events| ==> events[i].id == i
  }

  lemma PrefixCountsUp(s: System)
    requires Inv(s)
    ensures s.client.emitted <= s.log <==> CountsUp(s.client.emitted)
  {
    var emitted := s.client.emitted;
    if CountsUp(emitted) {
      assert forall i :: 0 <= i < |emitted| ==> emitted[i] in emitted && emitted[i] == s.log[i];
      assert emitted != [] ==> emitted[|emitted| - 1] in emitted;
    }
  }

  /** Start is behind everything that was emitted in order. */
  lemma StartAfterPrefix(s: System)
    requires Inv(s) && CountsUp(s.client.emitted)
    ensures s.client.window.start == |s.client.emitted|
  {
    var emitted, start := s.client.emitted, s.client.window.start;
    assert forall e :: e in emitted ==> e.id < |emitted|;
    PrefixCountsUp(s);
    forall i | 0 <= i < |emitted|
      ensures i in s.client.window.collected
    {
      assert emitted[i] in emitted;
    }
    if start > |emitted| {
      BelowStartIsEmitted(s, |emitted|);
      assert false;
    }
  }

  lemma StepEmits(s: System, step: Step)
    requires Inv(s)
    ensures Take(s, step).client.emitted
         == if step.Arrive? && step.events in s.answers then s.client.emitted + step.events else s.client.emitted
  {
    if step.Arrive? && step.events in s.answers {
      DeliverAllKeeps(s.client, step.events, s.log);
    }
  }

  lemma CountsUpAppend(before: seq<Event>, events: seq<Event>)
    ensures CountsUp(before + events)
        <==> CountsUp(before) && forall j :: 0 <= j < |events| ==> events[j].id == |before| + j
  {
    var after := before + events;
    assert forall i :: 0 <= i < |before| ==> after[i] == before[i];
    assert forall j :: 0 <= j < |events| ==> after[|before| + j] == events[j];
  }

  lemma StepCountsUp(s: System, step: Step)
    requires Inv(s)
    ensures CountsUp(Take(s, step).client.emitted) <==> CountsUp(s.client.emitted) && Consecutive(s, step)
  {
    StepEmits(s, step);
    if step.Arrive? && step.events in s.answers {
      CountsUpAppend(s.client.emitted, step.events);
      if CountsUp(s.client.emitted) {
        StartAfterPrefix(s);
      }
    }
  }

  /**
   * Over all runs, with polls that overlap, fail or arrive late: the callback has received exactly
   * a prefix of the log, in order and each event once, exactly when the ids of every answer counted
   * up from the client's start when it arrived.
   */
  lemma {:induction false} PrefixExactlyWhenConsecutive(queueId: nat, steps: seq<Step>)
    ensures var s := Run(Init(queueId), steps);
      s.client.emitted <= s.log <==> ConsecutiveRun(Init(queueId), steps)
  {
    RunKeeps(Init(queueId), steps);
    PrefixCountsUp(Run(Init(queueId), steps));
    if steps != [] {
      var n := |steps| - 1;
      var before := Run(Init(queueId), steps[..n]);
      RunKeeps(Init(queueId), steps[..n]);
      PrefixCountsUp(before);
      PrefixExactlyWhenConsecutive(queueId, steps[..n]);
      StepCountsUp(before, steps[n]);
    }
  }

  // ---------------------------------------------------------------------------
  // Polls that do not overlap: exactly the log, in order
  // ---------------------------------------------------------------------------

  /** A step of a run whose polls do not overlap and whose answers are contiguous runs of the log. */
  predicate Orderly(s: System, step: Step) {
    match step
    case Tick(timer) => s.polls == multiset{} && s.answers == multiset{}
    case Serve(offset, floor, events) =>
      0 <= offset && offset + |events| <= |s.log| && events == s.log[offset..offset + |events|]
    case _ => true
  }

  predicate OrderlyRun(s: System, steps: seq<Step>) {
    steps == []
    || (OrderlyRun(s, steps[..|steps| - 1]) && Orderly(Run(s, steps[..|steps| - 1]), steps[|steps| - 1]))
  }

  /** Nothing above start is collected; what has been emitted is the log up to start. */
  ghost predicate ExactClient(c: Client, log: seq<Event>) {
    && c.queueId.Some?
    && c.window.end == UNBOUNDED
    && 0 <= c.window.start <= |log| <= UNBOUNDED
    && (forall k :: k in c.window.collected <==> 0 <= k < c.window.start)
    && c.emitted == log[..c.window.start]
  }

  ghost predicate Exact(s: System) {
    && ExactClient(s.client, s.log)
    && |s.polls| + |s.answers| <= 1
    && (forall o :: o in s.polls ==> o == s.client.window.start)
    && (forall events :: events in s.answers ==> FromStart(s, events))
  }

  lemma DeliverNext(c: Client, log: seq<Event>)
    requires ExactClient(c, log) && c.subscribers > 0
    requires c.window.start < |log| && log[c.window.start].id == c.window.start
    ensures var d := c.Deliver(log[c.window.start]);
      ExactClient(d, log) && d.window.start == c.window.start + 1 && d.subscribers == c.subscribers
  {
    var start := c.window.start;
    var e := log[start];
    var d := c.Deliver(e);
    assert d.window == c.window.Slide(e.id, e);
    FirstGapUnique(d.window.collected.Keys, start, UNBOUNDED, start + 1);
    assert log[..start + 1] == log[..start] + [e];
  }

  lemma {:induction false} DeliverRunPointwise(c: Client, log: seq<Event>, events: seq<Event>)
    requires ExactClient(c, log) && c.subscribers > 0
    requires forall k :: 0 <= k < |log| ==> log[k].id == k
    requires c.window.start + |events| <= |log|
    requires forall i :: 0 <= i < |events| ==> events[i] == log[c.window.start + i]
    ensures var d := c.DeliverAll(events);
      ExactClient(d, log) && d.window.start == c.window.start + |events| && d.subscribers == c.subscribers
  {
    if events != [] {
      var n := |events| - 1;
      DeliverRunPointwise(c, log, events[..n]);
      assert events[n] == log[c.window.start + n];
      DeliverNext(c.DeliverAll(events[..n]), log);
    }
  }

  lemma DeliverRun(c: Client, log: seq<Event>, n: nat)
    requires ExactClient(c, log) && c.subscribers > 0
    requires forall k :: 0 <= k < |log| ==> log[k].id == k
    requires c.window.start + n <= |log|
    ensures var d := c.DeliverAll(log[c.window.start..c.window.start + n]);
      ExactClient(d, log) && d.window.start == c.window.start + n && d.subscribers == c.subscribers
  {
    DeliverRunPointwise(c, log, log[c.window.start..c.window.start + n]);
  }

  /** An answer is the run of the log that begins at start. */
  predicate FromStart(s: System, events: seq<Event>) {
    var start := s.client.window.start;
    0 <= start && start + |events| <= |s.log| && events == s.log[start..start + |events|]
  }

  lemma {:induction false} ArriveDelivers(s: System, events: seq<Event>)
    requires events in s.answers
    ensures Take(s, Arrive(events)).client == s.client.DeliverAll(events)
  {
  }

  /**
   * The exact condition, answer by answer: from an exact trace, delivering an answer gives the log
   * up to the new start exactly when the answer is the run of the log from the old start.
   */
  lemma AnswerKeepsPrefixExactly(s: System, events: seq<Event>)
    requires Inv(s) && ExactClient(s.client, s.log) && events in s.answers
    ensures var d := Take(s, Arrive(events)).client;
      (0 <= d.window.start <= |s.log| && d.emitted == s.log[..d.window.start]) <==> FromStart(s, events)
  {
    ArriveDelivers(s, events);
    if FromStart(s, events) {
      RunAnswerKeepsPrefix(s, events);
    } else {
      OtherAnswersBreakPrefix(s, events);
    }
  }

  lemma {:induction false} RunAnswerKeepsPrefix(s: System, events: seq<Event>)
    requires Inv(s) && ExactClient(s.client, s.log) && events in s.answers && FromStart(s, events)
    ensures var d := s.client.DeliverAll(events);
      ExactClient(d, s.log) && 0 <= d.window.start <= |s.log| && d.emitted == s.log[..d.window.start]
  {
    DeliverRunPointwise(s.client, s.log, events);
  }

  lemma {:induction false} OtherAnswersBreakPrefix(s: System, events: seq<Event>)
    requires Inv(s) && ExactClient(s.client, s.log) && events in s.answers && !FromStart(s, events)
    ensures var d := s.client.DeliverAll(events);
      !(0 <= d.window.start <= |s.log| && d.emitted == s.log[..d.window.start])
  {
    var d := s.client.DeliverAll(events);
    DeliverAllKeeps(s.client, events, s.log);
    if d.window.start <= |s.log| && d.emitted == s.log[..d.window.start] {
      PrefixesDiffer(s.log, s.client.window.start, d.window.start, events);
    }
  }

  lemma PrefixesDiffer(log: seq<Event>, start: int, end: int, events: seq<Event>)
    requires 0 <= start <= end <= |log| && log[..start] + events == log[..end]
    ensures start + |events| == end && events == log[start..end]
  {
    assert events == (log[..start] + events)[start..];
    assert log[..end][start..] == log[start..end];
  }

  lemma ArriveKeepsExact(s: System, events: seq<Event>)
    requires Inv(s) && Exact(s) && events in s.answers
    ensures Exact(Take(s, Arrive(events)))
  {
    ArriveDelivers(s, events);
    RunAnswerKeepsPrefix(s, events);
    var r := Take(s, Arrive(events));
    assert |r.answers| == |s.answers| - 1 && r.polls == s.polls;
    assert r.polls == multiset{} && r.answers == multiset{};
  }

  lemma PublishKeepsExact(s: System, body: string)
    requires Inv(s) && Exact(s)
    ensures Exact(Take(s, Publish(body)))
  {
    var r := Take(s, Publish(body));
    assert r.log[..r.client.window.start] == s.log[..s.client.window.start];
    forall events | events in r.answers
      ensures FromStart(r, events)
    {
      assert FromStart(s, events);
      assert |r.log| > |s.log| ==> r.log[..|s.log|] == s.log;
      var start := s.client.window.start;
      assert r.log[start..start + |events|] == s.log[start..start + |events|];
    }
  }

  lemma ServeKeepsExact(s: System, offset: int, floor: int, events: seq<Event>)
    requires Inv(s) && Exact(s) && offset in s.polls && Orderly(s, Serve(offset, floor, events))
    ensures Exact(Take(s, Serve(offset, floor, events)))
  {
    assert s.polls == multiset{offset} + (s.polls - multiset{offset});
    assert |s.polls| == 1 && s.answers == multiset{};
    assert offset == s.client.window.start;
  }

  lemma LossKeepsExact(s: System, step: Step)
    requires Inv(s) && Exact(s) && (step.LosePoll? || step.LoseAnswer?) && Enabled(s, step)
    ensures Exact(Take(s, step))
  {
    var r := Take(s, step);
    assert r.client.window == s.client.window && r.client.emitted == s.client.emitted;
    assert r.polls <= s.polls && r.answers <= s.answers;
    assert |r.polls| <= |s.polls| && |r.answers| <= |s.answers|;
  }

  lemma OrderlyStepKeepsExact(s: System, step: Step)
    requires Inv(s) && Exact(s) && Orderly(s, step)
    ensures Exact(Take(s, step))
  {
    if Enabled(s, step) {
      match step
      case Arrive(events) => ArriveKeepsExact(s, events);
      case Publish(body) => PublishKeepsExact(s, body);
      case Serve(offset, floor, events) => ServeKeepsExact(s, offset, floor, events);
      case Tick(timer) =>
        assert Take(s, step) == s.(polls := multiset{s.client.window.start});
      case LosePoll(_, _) => LossKeepsExact(s, step);
      case LoseAnswer(_, _) => LossKeepsExact(s, step);
      case Subscribe =>
      case Unsubscribe =>
    }
  }

  /**
   * When polls do not overlap and each answer is a contiguous run of the log from the requested
   * offset, the callback has received exactly the log prefix [0, start), in order and each event
   * once, although the server discards and polls may fail.
   */
  lemma {:induction false} EmittedIsLogPrefix(queueId: nat, steps: seq<Step>)
    requires OrderlyRun(Init(queueId), steps)
    ensures var s := Run(Init(queueId), steps);
      Exact(s) && s.client.emitted == s.log[..s.client.window.start]
  {
    if steps != [] {
      var n := |steps| - 1;
      EmittedIsLogPrefix(queueId, steps[..n]);
      RunKeeps(Init(queueId), steps[..n]);
      OrderlyStepKeepsExact(Run(Init(queueId), steps[..n]), steps[n]);
    }
  }

  lemma RestIsRetained(s: System, e: Event)
    requires Inv(s) && Exact(s) && e in s.log[s.client.window.start..]
    ensures Retained(s, e)
  {
    var rest := s.log[s.client.window.start..];
    var k :| 0 <= k < |rest| && rest[k] == e;
    assert e == s.log[s.client.window.start + k];
  }

  /** Ticking and serving a quiet system puts the rest of the log under way. */
  lemma ServedRest(s: System, timer: nat)
    requires Inv(s) && Exact(s) && timer in s.client.live && s.polls == multiset{} && s.answers == multiset{}
    ensures var start := s.client.window.start;
      Take(Take(s, Tick(timer)), Serve(start, start, s.log[start..]))
      == s.(floor := start, answers := multiset{s.log[start..]})
  {
    var start := s.client.window.start;
    var rest := s.log[start..];
    var ticked := Take(s, Tick(timer));
    assert ticked == s.(polls := multiset{start});
    forall e | e in rest
      ensures Retained(ticked, e)
    {
      RestIsRetained(s, e);
    }
    assert Enabled(ticked, Serve(start, start, rest));
  }

  lemma RoundFrom(s: System, timer: nat)
    requires Inv(s) && Exact(s) && timer in s.client.live && s.polls == multiset{} && s.answers == multiset{}
    ensures var start := s.client.window.start;
      var served := Take(Take(s, Tick(timer)), Serve(start, start, s.log[start..]));
      Take(served, Arrive(s.log[start..])).client.emitted == s.log
  {
    var start := s.client.window.start;
    var rest := s.log[start..];
    ServedRest(s, timer);
    RestCatchesUp(s);
    ArriveDelivers(s.(floor := start, answers := multiset{rest}), rest);
  }

  lemma RestCatchesUp(s: System)
    requires ExactClient(s.client, s.log) && s.client.subscribers > 0
    requires forall k :: 0 <= k < |s.log| ==> s.log[k].id == k
    ensures s.client.DeliverAll(s.log[s.client.window.start..]).emitted == s.log
  {
    var start := s.client.window.start;
    var rest := s.log[start..];
    assert rest == s.log[start..start + |rest|];
    DeliverRun(s.client, s.log, |rest|);
    assert s.log[..|s.log|] == s.log;
  }

  /**
   * An undisturbed round brings the callback up to date: after a quiet orderly run with the timer
   * running, one poll answered with all that is retained from its offset leaves nothing unseen.
   */
  lemma {:induction false} RoundCatchesUp(queueId: nat, steps: seq<Step>, timer: nat)
    requires OrderlyRun(Init(queueId), steps)
    requires var s := Run(Init(queueId), steps);
      s.polls == multiset{} && s.answers == multiset{} && timer in s.client.live
    ensures var s := Run(Init(queueId), steps);
      var start := s.client.window.start;
      && 0 <= start <= |s.log|
      && Take(Take(Take(s, Tick(timer)), Serve(start, start, s.log[start..])), Arrive(s.log[start..])).client.emitted
         == s.log
  {
    EmittedIsLogPrefix(queueId, steps);
    RunKeeps(Init(queueId), steps);
    RoundFrom(Run(Init(queueId), steps), timer);
  }

  // ---------------------------------------------------------------------------
  // Overlapping polls repeat events
  // ---------------------------------------------------------------------------

  lemma {:induction false} FourSteps(s: System, before: seq<Step>, a: Step, b: Step, c: Step, d: Step)
    ensures Run(s, before + [a] + [b] + [c] + [d]) == Take(Take(Take(Take(Run(s, before), a), b), c), d)
  {
    RunSnoc(s, before, a);
    RunSnoc(s, before + [a], b);
    RunSnoc(s, before + [a] + [b], c);
    RunSnoc(s, before + [a] + [b] + [c], d);
  }

  lemma {:induction false} DeliverOne(c: Client, e: Event)
    ensures c.DeliverAll([e]) == c.Deliver(e)
  {
    assert [e][..0] == [];
    assert c.DeliverAll([e][..0]) == c;
  }

  /** The poll asks for event 0 twice, and then both polls are answered with it. */
  const DOUBLED: seq<Step> := [] + [Subscribe] + [Publish("")] + [Tick(0)] + [Tick(0)]
  const REPEATED: seq<Step> := DOUBLED + [Serve(0, 0, [Event(0, "")])] + [Serve(0, 0, [Event(0, "")])]
                                + [Arrive([Event(0, "")])] + [Arrive([Event(0, "")])]

  lemma AfterDoubled(queueId: nat)
    ensures var s := Run(Init(queueId), DOUBLED);
      && s.client == NewClient(Some(queueId)).Subscribe().value
      && s.log == [Event(0, "")] && s.floor == 0 && s.polls == multiset{0, 0} && s.answers == multiset{}
  {
    FourSteps(Init(queueId), [], Subscribe, Publish(""), Tick(0), Tick(0));
  }

  lemma ServedOnce(s: System, e: Event)
    requires Retained(s, e) && s.floor == 0 && 0 in s.polls
    ensures Take(s, Serve(0, 0, [e])) == s.(polls := s.polls - multiset{0}, answers := s.answers + multiset{[e]})
  {
    assert Enabled(s, Serve(0, 0, [e]));
  }

  lemma ServedTwice(s: System, e: Event)
    requires Retained(s, e) && s.floor == 0 && s.polls == multiset{0, 0} && s.answers == multiset{}
    ensures Take(Take(s, Serve(0, 0, [e])), Serve(0, 0, [e])) == s.(polls := multiset{}, answers := multiset{[e], [e]})
  {
    ServedOnce(s, e);
    var once := s.(polls := multiset{0}, answers := multiset{[e]});
    assert s.polls - multiset{0} == multiset{0} && s.answers + multiset{[e]} == multiset{[e]};
    ServedOnce(once, e);
  }

  lemma ArrivedOnce(s: System, e: Event)
    requires s.client.queueId.Some? && s.client.subscribers > 0 && [e] in s.answers
    ensures var r := Take(s, Arrive([e]));
      && r.log == s.log && r.answers == s.answers - multiset{[e]}
      && r.client.emitted == s.client.emitted + [e]
      && r.client.queueId.Some? && r.client.subscribers > 0
  {
    DeliverOne(s.client, e);
  }

  lemma ArrivedTwice(s: System, e: Event)
    requires s.client.queueId.Some? && s.client.subscribers > 0 && s.answers == multiset{[e], [e]}
    ensures var r := Take(Take(s, Arrive([e])), Arrive([e]));
      r.log == s.log && r.client.emitted == s.client.emitted + [e, e]
  {
    ArrivedOnce(s, e);
    assert s.answers - multiset{[e]} == multiset{[e]};
    ArrivedOnce(Take(s, Arrive([e])), e);
  }

  lemma AfterRepeated(s: System)
    requires s.client.queueId.Some? && s.client.subscribers > 0
    requires s.log == [Event(0, "")] && s.floor == 0 && s.polls == multiset{0, 0} && s.answers == multiset{}
    ensures var e := Event(0, "");
      var r := Take(Take(Take(Take(s, Serve(0, 0, [e])), Serve(0, 0, [e])), Arrive([e])), Arrive([e]));
      r.log == s.log && r.client.emitted == s.client.emitted + [e, e]
  {
    var e := Event(0, "");
    ServedTwice(s, e);
    ArrivedTwice(s.(polls := multiset{}, answers := multiset{[e], [e]}), e);
  }

  /**
   * Without the no-overlap condition the trace need not be a log prefix: of two polls under way at
   * once, both answered in contiguous runs of the log, the callback gets the event twice.
   */
  lemma OverlappingPollsRepeat(queueId: nat)
    ensures var s := Run(Init(queueId), REPEATED);
      s.log == [Event(0, "")] && s.client.emitted == [Event(0, ""), Event(0, "")]
  {
    var e := Event(0, "");
    FourSteps(Init(queueId), DOUBLED, Serve(0, 0, [e]), Serve(0, 0, [e]), Arrive([e]), Arrive([e]));
    AfterDoubled(queueId);
    AfterRepeated(Run(Init(queueId), DOUBLED));
  }
}
