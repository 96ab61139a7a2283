/**
 * Runs of the request/response poller against its server queue (packages/gateway/src/polling.ts).
 * Polls may overlap, be answered late, in any order and with repeated ids, or fail before or after
 * the server has served them; every poll lets the server discard what lies below its offset.
 */
module RequestPolling {
  import opened Wrappers
  import opened Windows
  import opened Polling

  /**
   * `log` is what the server has published, by id; it retains what is at or above `floor`.
   * `polls` are the offsets of polls under way, `answers` the answers under way.
   */
  datatype System = System(
    client: Client,
    log: map<int, Event>,
    floor: int,
    polls: multiset<int>,
    answers: multiset<seq<Event>>)

  datatype Step =
    | Call(id: nat)
    | Tick(timer: nat)
    | Publish(event: Event)
    | Serve(offset: int, floor: int, events: seq<Event>)
    | Arrive(events: seq<Event>)
    | LosePoll(offset: int, error: string)
    | LoseAnswer(events: seq<Event>, error: string)

  function Init(): System {
    System(NewClient(None), map[], 0, multiset{}, multiset{})
  }

  predicate Retained(s: System, e: Event) {
    e.id in s.log && s.log[e.id] == e && s.floor <= e.id
  }

  predicate Enabled(s: System, step: Step) {
    match step
    case Call(id) => true
    case Tick(timer) => timer in s.client.live
    case Publish(event) => event.id !in s.log
    case Serve(offset, floor, events) =>
      && offset in s.polls
      && s.floor <= floor && (floor <= s.floor || floor <= offset)
      && forall e :: e in events ==> Retained(s, e)
    case Arrive(events) => events in s.answers
    case LosePoll(offset, error) => offset in s.polls
    case LoseAnswer(events, error) => events in s.answers
  }

  /** A step that cannot happen changes nothing. */
  function Take(s: System, step: Step): System {
    if !Enabled(s, step) then s
    else
      match step
      case Call(id) => s.(client := s.client.Response(id))
      case Tick(timer) => s.(polls := s.polls + multiset{s.client.window.start})
      case Publish(event) => s.(log := s.log[event.id := event])
      case Serve(offset, floor, events) =>
        s.(polls := s.polls - multiset{offset}, floor := floor, answers := s.answers + multiset{events})
      case Arrive(events) => s.(answers := s.answers - multiset{events}, client := s.client.DeliverAll(events))
      case LosePoll(offset, error) => s.(polls := s.polls - multiset{offset}, client := s.client.Fail(error))
      case LoseAnswer(events, error) => s.(answers := s.answers - multiset{events}, client := s.client.Fail(error))
  }

  function Run(s: System, steps: seq<Step>): System {
    if steps == [] then s else Take(Run(s, steps[..|steps| - 1]), steps[|steps| - 1])
  }

  lemma {:induction false} RunSnoc(s: System, steps: seq<Step>, step: Step)
    ensures Run(s, steps + [step]) == Take(Run(s, steps), step)
  {
    assert (steps + [step])[..|steps|] == steps;
  }

  lemma {:induction false} RunAppend(s: System, first: seq<Step>, second: seq<Step>)
    ensures Run(s, first + second) == Run(Run(s, first), second)
  {
    if second == [] {
      assert first + second == first;
    } else {
      var n := |second| - 1;
      assert (first + second)[..|first + second| - 1] == first + second[..n];
      RunAppend(s, first, second[..n]);
    }
  }

  // ---------------------------------------------------------------------------
  // The invariant
  // ---------------------------------------------------------------------------

  ghost predicate Waiting(c: Client, p: int) {
    0 <= p < |c.promises| && c.promises[p].outcome.Pending?
  }

  /** Every awaited id is uncollected and inside the window. */
  ghost predicate AwaitedInWindow(c: Client) {
    forall p :: Waiting(c, p) ==>
      c.promises[p].id !in c.window.collected && c.window.start <= c.promises[p].id < c.window.end
  }

  /** Every waiting promise has its two listeners, and listeners are filed under their own id. */
  ghost predicate Listening(c: Client) {
    && InRange(c)
    && (forall p :: Waiting(c, p) ==> p in Listeners(c.listeners, c.promises[p].id) && p in c.errorListeners)
    && (forall id :: id in c.listeners ==>
          forall k :: 0 <= k < |c.listeners[id]| ==> c.promises[c.listeners[id][k]].id == id)
  }

  /** At most one timer; it runs while anything is awaited, and only over an open window. */
  ghost predicate TimerRuns(c: Client) {
    && c.live == (if c.polling.Some? then {c.polling.value} else {})
    && (forall p :: Waiting(c, p) ==> c.polling.Some?)
    && (c.polling.Some? ==> !c.window.IsClosed())
  }

  /** What has been collected, and what promises resolved with, is the server's event of that id. */
  ghost predicate FromLog(c: Client, log: map<int, Event>) {
    && (forall k :: k in c.window.collected ==> k in log && c.window.collected[k] == log[k] && log[k].id == k)
    && (forall p :: 0 <= p < |c.promises| && c.promises[p].outcome.Resolved? ==>
          var id := c.promises[p].id;
          id in c.window.collected && c.promises[p].outcome.event == c.window.collected[id])
  }

  ghost predicate ClientInv(c: Client, log: map<int, Event>) {
    && c.queueId.None?
    && c.window.Settled()
    && AwaitedInWindow(c)
    && Listening(c)
    && TimerRuns(c)
    && FromLog(c, log)
  }

  ghost predicate InLog(events: seq<Event>, log: map<int, Event>) {
    forall e :: e in events ==> e.id in log && log[e.id] == e
  }

  ghost predicate Inv(s: System) {
    && ClientInv(s.client, s.log)
    && (forall k :: k in s.log ==> s.log[k].id == k)
    && (forall events :: events in s.answers ==> InLog(events, s.log))
  }

  /** A new request keeps every older promise as it was. */
  lemma ResponseWaiting(c: Client, id: nat)
    ensures var r := c.Response(id);
      && |r.promises| == |c.promises| + 1 && r.promises[..|c.promises|] == c.promises
      && r.promises[|c.promises|].id == id
      && (forall p :: Waiting(r, p) <==> Waiting(c, p) || (p == |c.promises| && id !in c.window.collected))
  {
  }

  lemma ResponseInWindow(c: Client, id: nat)
    requires c.window.Settled() && AwaitedInWindow(c) && id !in c.window.collected
    ensures c.Response(id).window.Settled() && !c.Response(id).window.IsClosed()
    ensures AwaitedInWindow(c.Response(id))
  {
    ExtendSettled(c.window, id);
    ResponseWaiting(c, id);
    assert c.Response(id).window == c.window.Extend(id);
    forall p | Waiting(c.Response(id), p)
      ensures var k := c.Response(id).promises[p].id;
        k !in c.window.collected && c.window.Extend(id).start <= k < c.window.Extend(id).end
    {
      if p < |c.promises| {
        assert Waiting(c, p);
      }
    }
  }

  lemma ResponseListens(c: Client, id: nat)
    requires Listening(c) && id !in c.window.collected
    ensures Listening(c.Response(id))
  {
    var r := c.Response(id);
    ResponseWaiting(c, id);
    forall p | Waiting(r, p)
      ensures p in Listeners(r.listeners, r.promises[p].id) && p in r.errorListeners
    {
      if p < |c.promises| {
        assert Waiting(c, p);
      }
    }
    forall k, i | k in r.listeners && 0 <= i < |r.listeners[k]|
      ensures r.listeners[k][i] < |r.promises| && r.promises[r.listeners[k][i]].id == k
    {
      if i < |Listeners(c.listeners, k)| {
        assert r.listeners[k][i] == c.listeners[k][i];
      }
    }
  }

  lemma ResponseKeeps(c: Client, id: nat, log: map<int, Event>)
    requires ClientInv(c, log)
    ensures ClientInv(c.Response(id), log)
  {
    var r := c.Response(id);
    ResponseWaiting(c, id);
    if id !in c.window.collected {
      ResponseInWindow(c, id);
      ResponseListens(c, id);
    }
  }

  /** Who still waits after an event has been delivered. */
  lemma DeliverWaiting(c: Client, e: Event)
    requires c.queueId.None? && Listening(c)
    ensures var r := c.Deliver(e);
      && |r.promises| == |c.promises|
      && r.window == c.window.Slide(e.id, e)
      && r.errorListeners == c.errorListeners && r.listeners == c.listeners - {e.id}
      && (forall p :: 0 <= p < |c.promises| ==> r.promises[p].id == c.promises[p].id)
      && (forall p :: Waiting(r, p) <==> Waiting(c, p) && c.promises[p].id != e.id)
  {
    var r := c.Deliver(e);
    forall p | 0 <= p < |c.promises|
      ensures Waiting(r, p) <==> Waiting(c, p) && c.promises[p].id != e.id
    {
      if p in Listeners(c.listeners, e.id) {
        assert c.promises[p].id == e.id;
      }
    }
  }

  lemma SlideSettled(w: State<Event>, e: Event)
    requires w.Settled()
    ensures var r := w.Slide(e.id, e);
      && r.Settled() && r.end == w.end && w.start <= r.start
      && r.collected.Keys == w.collected.Keys + {e.id}
      && (forall k :: w.start <= k < w.end && k !in r.collected ==> r.start <= k)
  {
    var r := w.Slide(e.id, e);
    assert r.collected.Keys == w.collected.Keys + {e.id};
  }

  lemma DeliverListens(c: Client, e: Event)
    requires c.queueId.None? && Listening(c)
    ensures Listening(c.Deliver(e))
  {
    DeliverWaiting(c, e);
  }

  lemma DeliverFromLog(c: Client, e: Event, log: map<int, Event>)
    requires c.queueId.None? && Listening(c) && FromLog(c, log)
    requires e.id in log && log[e.id] == e
    ensures FromLog(c.Deliver(e), log)
  {
    var r := c.Deliver(e);
    assert r.window.collected == c.window.collected[e.id := e];
    forall p | 0 <= p < |r.promises| && r.promises[p].outcome.Resolved?
      ensures var id := r.promises[p].id;
        id in r.window.collected && r.promises[p].outcome.event == r.window.collected[id]
    {
      if p in Listeners(c.listeners, e.id) {
        assert c.promises[p].id == e.id;
      } else {
        assert r.promises[p] == c.promises[p];
      }
    }
  }

  lemma DeliverKeeps(c: Client, e: Event, log: map<int, Event>)
    requires ClientInv(c, log) && e.id in log && log[e.id] == e
    ensures ClientInv(c.Deliver(e), log)
    ensures c.Deliver(e).window.collected.Keys == c.window.collected.Keys + {e.id}
  {
    DeliverWaiting(c, e);
    SlideSettled(c.window, e);
    DeliverListens(c, e);
    DeliverFromLog(c, e, log);
    var r := c.Deliver(e);
    assert AwaitedInWindow(r) by {
      forall p | Waiting(r, p)
        ensures r.promises[p].id !in r.window.collected && r.window.start <= r.promises[p].id < r.window.end
      {
        assert Waiting(c, p) && r.promises[p].id !in r.window.collected.Keys;
      }
    }
  }

  lemma FailKeeps(c: Client, error: string, log: map<int, Event>)
    requires ClientInv(c, log)
    ensures ClientInv(c.Fail(error), log)
    ensures forall p :: !Waiting(c.Fail(error), p)
  {
    var r := c.Fail(error);
    assert forall p :: Waiting(r, p) ==> Waiting(c, p);
  }

  lemma {:induction false} DeliverAllKeeps(c: Client, events: seq<Event>, log: map<int, Event>)
    requires ClientInv(c, log) && InLog(events, log)
    ensures ClientInv(c.DeliverAll(events), log)
  {
    if events != [] {
      var n := |events| - 1;
      DeliverAllKeeps(c, events[..n], log);
      assert events[n] in events;
      DeliverKeeps(c.DeliverAll(events[..n]), events[n], log);
    }
  }

  /** Delivering collects the events and forgets nothing. */
  lemma {:induction false} DeliverAllCollects(c: Client, events: seq<Event>)
    ensures c.window.collected.Keys <= c.DeliverAll(events).window.collected.Keys
    ensures forall i :: 0 <= i < |events| ==> events[i].id in c.DeliverAll(events).window.collected.Keys
  {
    if events != [] {
      var n := |events| - 1;
      var before, after := c.DeliverAll(events[..n]), c.DeliverAll(events);
      DeliverAllCollects(c, events[..n]);
      assert after.window.collected == before.window.collected[events[n].id := events[n]];
      assert after.window.collected.Keys == before.window.collected.Keys + {events[n].id};
      assert forall i :: 0 <= i < n ==> events[..n][i] == events[i];
    }
  }

  lemma ArriveKeeps(s: System, events: seq<Event>)
    requires Inv(s) && events in s.answers
    ensures Inv(Take(s, Arrive(events)))
  {
    DeliverAllKeeps(s.client, events, s.log);
    assert forall a :: a in Take(s, Arrive(events)).answers ==> a in s.answers;
  }

  lemma PublishKeeps(s: System, event: Event)
    requires Inv(s)
    ensures Inv(Take(s, Publish(event)))
  {
  }

  lemma ServeKeeps(s: System, offset: int, floor: int, events: seq<Event>)
    requires Inv(s)
    ensures Inv(Take(s, Serve(offset, floor, events)))
  {
    var r := Take(s, Serve(offset, floor, events));
    assert forall a :: a in r.answers ==> a in s.answers || (a == events && Enabled(s, Serve(offset, floor, events)));
  }

  lemma LossKeeps(s: System, step: Step)
    requires Inv(s) && (step.LosePoll? || step.LoseAnswer?)
    ensures Inv(Take(s, step))
  {
    FailKeeps(s.client, step.error, s.log);
    assert forall a :: a in Take(s, step).answers ==> a in s.answers;
  }

  lemma TakeKeeps(s: System, step: Step)
    requires Inv(s)
    ensures Inv(Take(s, step))
  {
    match step
    case Call(id) => ResponseKeeps(s.client, id, s.log);
    case Tick(timer) =>
    case Publish(event) => PublishKeeps(s, event);
    case Serve(offset, floor, events) => ServeKeeps(s, offset, floor, events);
    case Arrive(events) =>
      if events in s.answers {
        ArriveKeeps(s, events);
      }
    case LosePoll(_, _) => LossKeeps(s, step);
    case LoseAnswer(_, _) => LossKeeps(s, step);
  }

  lemma {:induction false} RunKeeps(s: System, steps: seq<Step>)
    requires Inv(s)
    ensures Inv(Run(s, steps))
  {
    if steps != [] {
      var n := |steps| - 1;
      RunKeeps(s, steps[..n]);
      TakeKeeps(Run(s, steps[..n]), steps[n]);
    }
  }

  lemma InitInv()
    ensures Inv(Init())
  {
  }

  // ---------------------------------------------------------------------------
  // Promises settle at most once
  // ---------------------------------------------------------------------------

  /** Promises keep their index and id, and settled ones their outcome. */
  ghost predicate Grows(c: Client, d: Client) {
    && |c.promises| <= |d.promises|
    && forall p :: 0 <= p < |c.promises| ==>
         d.promises[p].id == c.promises[p].id && (Waiting(c, p) || d.promises[p] == c.promises[p])
  }

  lemma {:induction false} DeliverAllGrows(c: Client, events: seq<Event>)
    ensures Grows(c, c.DeliverAll(events))
    ensures forall p :: 0 <= p < |c.promises| && c.promises[p].outcome.Pending? ==>
      !c.DeliverAll(events).promises[p].outcome.Rejected?
  {
    if events != [] {
      DeliverAllGrows(c, events[..|events| - 1]);
    }
  }

  lemma TakeGrows(s: System, step: Step)
    ensures Grows(s.client, Take(s, step).client)
  {
    if Enabled(s, step) && step.Arrive? {
      DeliverAllGrows(s.client, step.events);
    }
  }

  lemma {:induction false} RunGrows(s: System, steps: seq<Step>)
    ensures Grows(s.client, Run(s, steps).client)
  {
    if steps != [] {
      var n := |steps| - 1;
      RunGrows(s, steps[..n]);
      TakeGrows(Run(s, steps[..n]), steps[n]);
      forall p | 0 <= p < |s.client.promises|
        ensures Run(s, steps).client.promises[p].id == s.client.promises[p].id
        ensures Waiting(s.client, p) || Run(s, steps).client.promises[p] == s.client.promises[p]
      {
        assert Waiting(Run(s, steps[..n]).client, p) ==> Waiting(s.client, p);
      }
    }
  }

  // ---------------------------------------------------------------------------
  // What holds in every reachable state
  // ---------------------------------------------------------------------------

  lemma {:induction false} Reachable(steps: seq<Step>)
    ensures Inv(Run(Init(), steps))
  {
    RunKeeps(Init(), steps);
  }

  /**
   * In every reachable state, whatever the interleaving: an awaited id is uncollected and inside
   * the window, so a poll issued now has an offset that is at most every awaited id; and a promise
   * that has resolved holds the server's event of its own id.
   */
  lemma {:induction false} AwaitedIdsAreCovered(steps: seq<Step>, timer: nat)
    ensures var s := Run(Init(), steps);
      && (forall p :: Waiting(s.client, p) ==>
            var id := s.client.promises[p].id;
            && id !in s.client.window.collected
            && s.client.window.start <= id < s.client.window.end
            && forall o :: o in Take(s, Tick(timer)).polls && o !in s.polls ==> o <= id)
      && (forall p :: 0 <= p < |s.client.promises| && s.client.promises[p].outcome.Resolved? ==>
            var id := s.client.promises[p].id;
            id in s.log && s.client.promises[p].outcome.event == s.log[id] && s.log[id].id == id)
  {
    Reachable(steps);
  }

  /**
   * In every reachable state a timer runs while any promise is unsettled, at most one timer is
   * live, and a running timer implies an open window whose start is uncollected.
   */
  lemma {:induction false} TimerRunsWhileAwaiting(steps: seq<Step>)
    ensures var c := Run(Init(), steps).client;
      && ((exists p :: Waiting(c, p)) ==> c.polling.Some?)
      && c.live == (if c.polling.Some? then {c.polling.value} else {})
      && (c.polling.Some? ==> c.window.start < c.window.end && c.window.start !in c.window.collected)
  {
    Reachable(steps);
  }

  // ---------------------------------------------------------------------------
  // When the timer runs
  // ---------------------------------------------------------------------------

  predicate Fails(s: System, step: Step) {
    Enabled(s, step) && (step.LosePoll? || step.LoseAnswer?)
  }

  /** A request has had to wait since the last failed poll of the run, if there was one. */
  predicate Armed(steps: seq<Step>) {
    steps != [] &&
    var before, step := steps[..|steps| - 1], steps[|steps| - 1];
    var s := Run(Init(), before);
    if Fails(s, step) then false
    else (step.Call? && step.id !in s.client.window.collected) || Armed(before)
  }

  /** Some id of the window is still to be collected. */
  ghost predicate Gap(w: State<Event>) {
    exists id :: w.start <= id < w.end && id !in w.collected
  }

  lemma {:induction false} DeliverAllPolling(c: Client, events: seq<Event>, log: map<int, Event>)
    requires ClientInv(c, log) && InLog(events, log)
    ensures var d := c.DeliverAll(events);
      d.polling == (if c.polling.Some? && !d.window.IsClosed() then c.polling else None)
    ensures c.window.IsClosed() ==> c.DeliverAll(events).window.IsClosed()
  {
    if events != [] {
      var n := |events| - 1;
      DeliverAllPolling(c, events[..n], log);
      DeliverAllKeeps(c, events[..n], log);
      assert events[n] in events;
      SlideSettled(c.DeliverAll(events[..n]).window, events[n]);
    }
  }

  lemma TimerStep(s: System, step: Step, armed: bool)
    requires Inv(s) && (s.client.polling.Some? <==> armed && !s.client.window.IsClosed())
    ensures var c := Take(s, step).client;
      c.polling.Some? <==>
        && !Fails(s, step) && ((step.Call? && step.id !in s.client.window.collected) || armed)
        && !c.window.IsClosed()
  {
    if Enabled(s, step) {
      match step
      case Call(id) =>
        if id !in s.client.window.collected {
          ExtendSettled(s.client.window, id);
        }
      case Arrive(events) => DeliverAllPolling(s.client, events, s.log);
      case _ =>
    }
  }

  /**
   * Over all runs: the timer runs exactly when a request has had to wait since the last failed poll
   * and some id of the window is uncollected, whether or not anybody waits for that id.
   */
  lemma {:induction false} TimerRunsExactlyOverGaps(steps: seq<Step>)
    ensures var c := Run(Init(), steps).client;
      && (c.polling.Some? <==> Armed(steps) && !c.window.IsClosed())
      && (c.window.IsClosed() <==> !Gap(c.window))
  {
    Reachable(steps);
    var w := Run(Init(), steps).client.window;
    assert !w.IsClosed() ==> w.start < w.end && w.start !in w.collected;
    if steps != [] {
      var n := |steps| - 1;
      TimerRunsExactlyOverGaps(steps[..n]);
      Reachable(steps[..n]);
      TimerStep(Run(Init(), steps[..n]), steps[n], Armed(steps[..n]));
    }
  }

  /** The timer runs while `id` is inside the window, uncollected and unpublished. */
  ghost predicate PollsFor(s: System, id: int) {
    && s.client.polling.Some? && s.client.window.start <= id < s.client.window.end
    && id !in s.client.window.collected && id !in s.log
  }

  lemma DeliverKeepsGap(c: Client, e: Event, id: int)
    requires c.window.Settled() && e.id != id
    requires c.window.start <= id < c.window.end && id !in c.window.collected
    ensures var w := c.Deliver(e).window;
      w.start <= id < w.end && id !in w.collected
  {
    SlideSettled(c.window, e);
    assert c.Deliver(e).window == c.window.Slide(e.id, e);
    assert id !in c.Deliver(e).window.collected.Keys;
  }

  lemma {:induction false} DeliverAllKeepsGap(c: Client, events: seq<Event>, log: map<int, Event>, id: int)
    requires ClientInv(c, log) && InLog(events, log) && id !in log
    requires c.window.start <= id < c.window.end && id !in c.window.collected
    ensures var w := c.DeliverAll(events).window;
      w.start <= id < w.end && id !in w.collected
  {
    if events != [] {
      var n := |events| - 1;
      assert events[n] in events;
      DeliverAllKeepsGap(c, events[..n], log, id);
      DeliverAllKeeps(c, events[..n], log);
      DeliverKeepsGap(c.DeliverAll(events[..n]), events[n], id);
    }
  }

  lemma PollsForStep(s: System, step: Step, id: int)
    requires Inv(s) && PollsFor(s, id)
    requires !Fails(s, step) && (step.Publish? ==> step.event.id != id)
    ensures PollsFor(Take(s, step), id)
  {
    if Enabled(s, step) {
      match step
      case Call(other) =>
        if other !in s.client.window.collected {
          ExtendSettled(s.client.window, other);
        }
      case Arrive(events) =>
        DeliverAllPolling(s.client, events, s.log);
        DeliverAllKeepsGap(s.client, events, s.log, id);
      case _ =>
    }
  }

  /** No poll of the continuation fails, and the event of the id is not published in it. */
  predicate Undisturbed(s: System, steps: seq<Step>, id: int) {
    steps == []
    || (Undisturbed(s, steps[..|steps| - 1], id)
        && !Fails(Run(s, steps[..|steps| - 1]), steps[|steps| - 1])
        && (steps[|steps| - 1].Publish? ==> steps[|steps| - 1].event.id != id))
  }

  /** A gap keeps the timer running for good, as long as no poll fails and its event is not published. */
  lemma {:induction false} GapKeepsPolling(s: System, steps: seq<Step>, id: int)
    requires Inv(s) && PollsFor(s, id) && Undisturbed(s, steps, id)
    ensures PollsFor(Run(s, steps), id)
  {
    if steps != [] {
      var n := |steps| - 1;
      GapKeepsPolling(s, steps[..n], id);
      RunKeeps(s, steps[..n]);
      PollsForStep(Run(s, steps[..n]), steps[n], id);
    }
  }

  /** Ids 0 and 2 are requested and answered; id 1 between them never was. */
  const IDLE_STEPS: seq<Step> := [Call(0), Call(2), Publish(Event(0, "")), Publish(Event(2, "")), Tick(0)]
                                 + [Serve(0, 0, [Event(0, ""), Event(2, "")])]
                                 + [Arrive([Event(0, ""), Event(2, "")])]

  /** A state in which ids 0 and 2 are awaited and their events published, and one poll is under way. */
  ghost predicate BothAwaited(s: System) {
    && s.client.queueId.None? && s.client.window == State(0, 3, map[])
    && s.client.promises == [Promise(0, Pending), Promise(2, Pending)]
    && s.client.listeners == map[0 := [0], 2 := [1]] && s.client.polling.Some?
    && s.log == map[0 := Event(0, ""), 2 := Event(2, "")] && s.floor == 0
    && s.polls == multiset{0} && s.answers == multiset{}
  }

  lemma TwoRequests(c: Client)
    requires c == NewClient(None)
    ensures var d := c.Response(0).Response(2);
      && d.queueId.None? && d.window == State(0, 3, map[])
      && d.promises == [Promise(0, Pending), Promise(2, Pending)]
      && d.listeners == map[0 := [0], 2 := [1]] && d.polling.Some? && d.live == {0}
  {
    var none: seq<nat> := [];
    assert none + [0] == [0] && none + [1] == [1];
    var first := c.Response(0);
    assert first.listeners == map[0 := [0]] && first.promises == [Promise(0, Pending)];
    assert first.Response(2).listeners == first.listeners[2 := [1]];
  }

  lemma IdleAsked()
    ensures BothAwaited(Run(Init(), [Call(0), Call(2), Publish(Event(0, "")), Publish(Event(2, "")), Tick(0)]))
  {
    FiveSteps(Init(), Call(0), Call(2), Publish(Event(0, "")), Publish(Event(2, "")), Tick(0));
    TwoRequests(NewClient(None));
  }

  lemma {:induction false} TwoDelivered(c: Client)
    requires c.queueId.None? && c.window == State(0, 3, map[]) && c.polling.Some?
    requires c.promises == [Promise(0, Pending), Promise(2, Pending)] && c.listeners == map[0 := [0], 2 := [1]]
    ensures var d := c.DeliverAll([Event(0, ""), Event(2, "")]);
      && (forall p :: !Waiting(d, p)) && d.polling.Some?
      && d.window.start == 1 && d.window.end == 3 && 1 !in d.window.collected
  {
    var first, second := Event(0, ""), Event(2, "");
    var events := [first, second];
    assert events[..1] == [first] && [first][..0] == [];
    assert c.DeliverAll([first][..0]) == c;
    assert c.DeliverAll([first]) == c.Deliver(first);
    assert c.DeliverAll(events) == c.Deliver(first).Deliver(second);
    var d := c.Deliver(first);
    FirstGapUnique({0}, 0, 3, 1);
    assert d.window == State(1, 3, map[0 := first]);
    assert d.promises == [Promise(0, Resolved(first)), Promise(2, Pending)];
  }

  lemma BothAnswered(s: System)
    requires BothAwaited(s)
    ensures var events := [Event(0, ""), Event(2, "")];
      var d := Take(Take(s, Serve(0, 0, events)), Arrive(events));
      PollsFor(d, 1) && forall p :: !Waiting(d.client, p)
  {
    var events := [Event(0, ""), Event(2, "")];
    assert Enabled(s, Serve(0, 0, events));
    TwoDelivered(s.client);
  }

  /** Polling with nobody waiting does happen, and may go on for ever. */
  lemma {:induction false} IdlePolling(later: seq<Step>)
    ensures var s := Run(Init(), IDLE_STEPS);
      && (forall p :: !Waiting(s.client, p)) && s.client.polling.Some?
      && (Undisturbed(s, later, 1) ==> Run(s, later).client.polling.Some?)
  {
    var asked := [Call(0), Call(2), Publish(Event(0, "")), Publish(Event(2, "")), Tick(0)];
    var events := [Event(0, ""), Event(2, "")];
    IdleAsked();
    BothAnswered(Run(Init(), asked));
    RunSnoc(Init(), asked, Serve(0, 0, events));
    RunSnoc(Init(), asked + [Serve(0, 0, events)], Arrive(events));
    Reachable(IDLE_STEPS);
    if Undisturbed(Run(Init(), IDLE_STEPS), later, 1) {
      GapKeepsPolling(Run(Init(), IDLE_STEPS), later, 1);
    }
  }

  /**
   * A failed poll rejects every promise that waits, with its error, settles nothing else, and
   * leaves no timer running; the window is as before, so the next request resumes from it.
   */
  lemma {:induction false} FailureRejectsWaiting(steps: seq<Step>, step: Step)
    requires Fails(Run(Init(), steps), step)
    ensures var c, d := Run(Init(), steps).client, Take(Run(Init(), steps), step).client;
      && d.live == {} && d.polling.None? && d.window == c.window
      && d.errorListeners == [] && d.listeners == c.listeners
      && |d.promises| == |c.promises|
      && forall p :: 0 <= p < |c.promises| ==>
           d.promises[p] == if Waiting(c, p) then Promise(c.promises[p].id, Rejected(step.error)) else c.promises[p]
  {
    Reachable(steps);
  }

  /**
   * A request adds one promise with its id and changes no other. It has resolved if its event has
   * arrived, and waits otherwise, inside the window and with the timer running.
   */
  lemma {:induction false} RequestWaitsOrResolves(steps: seq<Step>, id: nat)
    ensures var s := Run(Init(), steps);
      var c, d := s.client, Take(s, Call(id)).client;
      && (id in c.window.collected ==> id in s.log)
      && d.promises == c.promises
           + [Promise(id, if id in c.window.collected then Polling.Resolved(s.log[id]) else Pending)]
      && (id in c.window.collected ==> d == c.(promises := d.promises))
      && (id !in c.window.collected ==> d.window.start <= id < d.window.end && d.polling.Some?)
  {
    Reachable(steps);
    var c := Run(Init(), steps).client;
    if id !in c.window.collected {
      ExtendSettled(c.window, id);
    }
  }

  /** An answer resolves exactly the waiting promises whose event it carries, and settles no other. */
  lemma AnswerResolvesExactly(s: System, events: seq<Event>)
    requires Inv(s) && events in s.answers
    ensures var c, d := s.client, Take(s, Arrive(events)).client;
      && |d.promises| == |c.promises|
      && forall p :: 0 <= p < |c.promises| ==>
           && (Waiting(c, p) && Carries(events, c.promises[p].id) ==>
                 var id := c.promises[p].id;
                 id in s.log && d.promises[p] == Promise(id, Polling.Resolved(s.log[id])))
           && (!Waiting(c, p) || !Carries(events, c.promises[p].id) ==> d.promises[p] == c.promises[p])
  {
    var c := s.client;
    DeliverAllGrows(c, events);
    DeliverAllKeeps(c, events, s.log);
    DeliverAllCount(c, events);
    forall p | 0 <= p < |c.promises| && Waiting(c, p)
      ensures Carries(events, c.promises[p].id) ==>
        var id := c.promises[p].id;
        id in s.log && c.DeliverAll(events).promises[p] == Promise(id, Polling.Resolved(s.log[id]))
      ensures !Carries(events, c.promises[p].id) ==> c.DeliverAll(events).promises[p] == c.promises[p]
    {
      if Carries(events, c.promises[p].id) {
        DeliveredResolves(c, events, p, s.log);
      } else {
        ForeignEventsDoNotResolve(c, events, p, s.log);
      }
    }
  }

  lemma {:induction false} DeliverAllCount(c: Client, events: seq<Event>)
    ensures |c.DeliverAll(events).promises| == |c.promises|
  {
    if events != [] {
      DeliverAllCount(c, events[..|events| - 1]);
    }
  }

  /** An event that has arrived is never lost: any later request for its id resolves at once. */
  lemma {:induction false} EarlyArrival(steps: seq<Step>, later: seq<Step>, id: nat)
    requires id in Run(Init(), steps).client.window.collected
    ensures var s := Run(Init(), steps + later);
      var c := Take(s, Call(id)).client;
      && id in s.log
      && c.promises == s.client.promises + [Promise(id, Resolved(s.log[id]))]
  {
    Reachable(steps);
    Reachable(steps + later);
    RunAppend(Init(), steps, later);
    CollectedStays(Run(Init(), steps), later);
  }

  lemma CollectedStaysInStep(s: System, step: Step)
    ensures s.client.window.collected.Keys <= Take(s, step).client.window.collected.Keys
  {
    if Enabled(s, step) && step.Arrive? {
      DeliverAllCollects(s.client, step.events);
    }
  }

  lemma {:induction false} CollectedStays(s: System, steps: seq<Step>)
    ensures s.client.window.collected.Keys <= Run(s, steps).client.window.collected.Keys
  {
    if steps != [] {
      var n := |steps| - 1;
      CollectedStays(s, steps[..n]);
      CollectedStaysInStep(Run(s, steps[..n]), steps[n]);
    }
  }

  // ---------------------------------------------------------------------------
  // Which awaited events the server may discard
  // ---------------------------------------------------------------------------

  /** The server has discarded up to above id, or some poll under way lets it. */
  ghost predicate Threatened(s: System, id: int) {
    s.floor > id || exists o :: o in s.polls && o > id
  }

  lemma UnthreatenedStep(s: System, step: Step, p: nat)
    requires Inv(s) && Waiting(s.client, p) && !Threatened(s, s.client.promises[p].id)
    ensures !Threatened(Take(s, step), s.client.promises[p].id)
  {
    var id := s.client.promises[p].id;
    assert s.client.window.start <= id;
    forall o | o in Take(s, step).polls
      ensures o <= id
    {
      assert o in s.polls || o == s.client.window.start;
    }
  }

  lemma {:induction false} UnthreatenedStays(s: System, steps: seq<Step>, p: nat)
    requires Inv(s) && Waiting(s.client, p) && !Threatened(s, s.client.promises[p].id)
    requires Waiting(Run(s, steps).client, p)
    ensures !Threatened(Run(s, steps), s.client.promises[p].id)
  {
    if steps != [] {
      var n := |steps| - 1;
      var t := Run(s, steps[..n]);
      RunGrows(s, steps[..n]);
      TakeGrows(t, steps[n]);
      assert Waiting(t.client, p);
      UnthreatenedStays(s, steps[..n], p);
      RunKeeps(s, steps[..n]);
      UnthreatenedStep(t, steps[n], p);
    }
  }

  /** The continuation in which a threatened event is discarded. */
  lemma ThreatenedCanBeDiscarded(s: System, p: nat) returns (steps: seq<Step>)
    requires Waiting(s.client, p) && Threatened(s, s.client.promises[p].id)
    ensures Waiting(Run(s, steps).client, p) && Run(s, steps).floor > s.client.promises[p].id
  {
    steps := [];
    if s.floor <= s.client.promises[p].id {
      var o :| o in s.polls && o > s.client.promises[p].id;
      RunSnoc(s, [], Serve(o, o, []));
      steps := [] + [Serve(o, o, [])];
    }
  }

  /**
   * The server can come to discard an awaited event in some continuation, the promise still
   * waiting, exactly when its id is threatened now. An unthreatened request never loses its event.
   */
  lemma {:induction false} DiscardableExactlyWhenThreatened(s: System, p: nat)
    requires Inv(s) && Waiting(s.client, p)
    ensures var id := s.client.promises[p].id;
      (exists steps :: Waiting(Run(s, steps).client, p) && Run(s, steps).floor > id) <==> Threatened(s, id)
  {
    if Threatened(s, s.client.promises[p].id) {
      var steps := ThreatenedCanBeDiscarded(s, p);
    } else {
      forall steps | Waiting(Run(s, steps).client, p)
        ensures Run(s, steps).floor <= s.client.promises[p].id
      {
        UnthreatenedStays(s, steps, p);
      }
    }
  }

  /** No id requested so far is above n. */
  ghost predicate RequestedUpTo(c: Client, n: int) {
    forall p :: 0 <= p < |c.promises| ==> c.promises[p].id <= n
  }

  ghost predicate OffsetsUpTo(s: System, n: int) {
    && s.floor <= n && s.client.window.end <= n + 1
    && forall o :: o in s.polls ==> o <= n
  }

  lemma TickOffsets(s: System, timer: nat, n: nat)
    requires Inv(s) && OffsetsUpTo(s, n) && Enabled(s, Tick(timer))
    ensures OffsetsUpTo(Take(s, Tick(timer)), n)
  {
    var t := Take(s, Tick(timer));
    assert t.client == s.client && t.floor == s.floor;
    assert forall o :: o in t.polls ==> o in s.polls || o == s.client.window.start;
  }

  lemma OffsetsStep(s: System, step: Step, n: nat)
    requires Inv(s) && OffsetsUpTo(s, n) && RequestedUpTo(Take(s, step).client, n)
    ensures OffsetsUpTo(Take(s, step), n)
  {
    if Enabled(s, step) {
      match step
      case Arrive(events) => DeliverAllKeepsEnd(s.client, events);
      case Call(id) =>
        assert s.client.Response(id).promises[|s.client.promises|].id == id;
      case Tick(timer) => TickOffsets(s, timer, n);
      case _ =>
    }
  }

  lemma {:induction false} OffsetsFollowRequests(steps: seq<Step>, n: nat)
    requires RequestedUpTo(Run(Init(), steps).client, n)
    ensures OffsetsUpTo(Run(Init(), steps), n)
  {
    if steps != [] {
      var k := |steps| - 1;
      var t := Run(Init(), steps[..k]);
      TakeGrows(t, steps[k]);
      forall p | 0 <= p < |t.client.promises|
        ensures t.client.promises[p].id <= n
      {
        assert t.client.promises[p].id == Run(Init(), steps).client.promises[p].id;
      }
      OffsetsFollowRequests(steps[..k], n);
      Reachable(steps[..k]);
      OffsetsStep(t, steps[k], n);
    }
  }

  lemma {:induction false} DeliverAllKeepsEnd(c: Client, events: seq<Event>)
    ensures c.DeliverAll(events).window.end == c.window.end
  {
    if events != [] {
      DeliverAllKeepsEnd(c, events[..|events| - 1]);
    }
  }

  /**
   * A request whose id is at least every id requested before is never threatened: as long as its
   * promise waits, the server has discarded nothing at or above its id.
   */
  lemma {:induction false} AscendingRequestsAreSafe(steps: seq<Step>, id: nat, later: seq<Step>)
    requires RequestedUpTo(Run(Init(), steps).client, id)
    ensures var s := Run(Init(), steps);
      var p := |s.client.promises|;
      var t := Run(Take(s, Call(id)), later);
      Waiting(t.client, p) ==> t.client.promises[p].id == id && t.floor <= id
  {
    var s := Run(Init(), steps);
    var p := |s.client.promises|;
    var called := Take(s, Call(id));
    OffsetsFollowRequests(steps, id);
    Reachable(steps);
    TakeKeeps(s, Call(id));
    RunGrows(called, later);
    if Waiting(Run(called, later).client, p) {
      assert Waiting(called.client, p);
      UnthreatenedStays(called, later, p);
    }
  }

  /** The awaited event has been discarded and is in no answer under way. */
  ghost predicate Lost(s: System, p: int) {
    && 0 <= p < |s.client.promises|
    && s.floor > s.client.promises[p].id
    && forall events :: events in s.answers ==> forall e :: e in events ==> e.id != s.client.promises[p].id
  }

  lemma LostStep(s: System, step: Step, p: nat)
    requires Inv(s) && Lost(s, p) && !s.client.promises[p].outcome.Resolved?
    ensures Lost(Take(s, step), p) && !Take(s, step).client.promises[p].outcome.Resolved?
  {
    TakeGrows(s, step);
    if Enabled(s, step) && step.Arrive? {
      ForeignEventsDoNotResolve(s.client, step.events, p, s.log);
    }
  }

  /** Such a promise never resolves: in every continuation it waits or has been rejected. */
  lemma {:induction false} LostNeverResolves(s: System, steps: seq<Step>, p: nat)
    requires Inv(s) && Waiting(s.client, p) && Lost(s, p)
    ensures Lost(Run(s, steps), p)
    ensures !Run(s, steps).client.promises[p].outcome.Resolved?
  {
    if steps != [] {
      var n := |steps| - 1;
      LostNeverResolves(s, steps[..n], p);
      RunKeeps(s, steps[..n]);
      LostStep(Run(s, steps[..n]), steps[n], p);
    }
  }

  /** An answer under way carries the event of the id. */
  predicate Carries(events: seq<Event>, id: int) {
    exists i :: 0 <= i < |events| && events[i].id == id
  }

  ghost predicate Carried(s: System, id: int) {
    exists events :: events in s.answers && Carries(events, id)
  }

  lemma NotLost(s: System, p: nat)
    requires p < |s.client.promises|
    ensures Lost(s, p) <==> s.floor > s.client.promises[p].id && !Carried(s, s.client.promises[p].id)
  {
    var id := s.client.promises[p].id;
    if s.floor > id && !Carried(s, id) {
      forall events, e | events in s.answers && e in events
        ensures e.id != id
      {
        assert !Carries(events, id);
      }
    }
  }

  /** A waiting promise whose event is delivered resolves. */
  lemma {:induction false} DeliveredResolves(c: Client, events: seq<Event>, p: nat, log: map<int, Event>)
    requires ClientInv(c, log) && InLog(events, log) && Waiting(c, p) && Carries(events, c.promises[p].id)
    ensures p < |c.DeliverAll(events).promises| && c.DeliverAll(events).promises[p].outcome.Resolved?
  {
    DeliverAllKeeps(c, events, log);
    DeliverAllGrows(c, events);
    DeliverAllCollects(c, events);
    assert !Waiting(c.DeliverAll(events), p);
  }

  /** Some continuation ends with the promise resolved. */
  ghost predicate CanResolve(s: System, p: nat) {
    exists steps :: ResolvedAfter(s, steps, p)
  }

  ghost predicate ResolvedAfter(s: System, steps: seq<Step>, p: nat) {
    p < |Run(s, steps).client.promises| && Run(s, steps).client.promises[p].outcome.Resolved?
  }

  lemma CarriedCanResolve(s: System, p: nat)
    requires Inv(s) && Waiting(s.client, p) && Carried(s, s.client.promises[p].id)
    ensures CanResolve(s, p)
  {
    var events :| events in s.answers && Carries(events, s.client.promises[p].id);
    DeliveredResolves(s.client, events, p, s.log);
    RunSnoc(s, [], Arrive(events));
    assert ResolvedAfter(s, [] + [Arrive(events)], p);
  }

  lemma {:induction false} StepsCanResolve(s: System, steps: seq<Step>, p: nat)
    requires CanResolve(Run(s, steps), p)
    ensures CanResolve(s, p)
  {
    var more :| ResolvedAfter(Run(s, steps), more, p);
    RunAppend(s, steps, more);
    assert ResolvedAfter(s, steps + more, p);
  }

  /** A retained event can be served and delivered in one round. */
  lemma RetainedCanResolve(s: System, p: nat)
    requires Inv(s) && Waiting(s.client, p)
    requires var id := s.client.promises[p].id; id in s.log && s.floor <= id
    ensures CanResolve(s, p)
  {
    var events := [s.log[s.client.promises[p].id]];
    RoundResolves(s, p, s.floor, events);
    var tick, serve := Tick(s.client.polling.value), Serve(s.client.window.start, s.floor, events);
    RunSnoc(s, [], tick);
    RunSnoc(s, [] + [tick], serve);
    RunSnoc(s, [] + [tick] + [serve], Arrive(events));
    assert ResolvedAfter(s, [] + [tick] + [serve] + [Arrive(events)], p);
  }

  /** An event not published yet can be published first. */
  lemma UndiscardedCanResolve(s: System, p: nat)
    requires Inv(s) && Waiting(s.client, p) && s.floor <= s.client.promises[p].id
    ensures CanResolve(s, p)
  {
    var id := s.client.promises[p].id;
    if id in s.log {
      RetainedCanResolve(s, p);
    } else {
      var publish := Publish(Event(id, ""));
      TakeKeeps(s, publish);
      RunSnoc(s, [], publish);
      RetainedCanResolve(Take(s, publish), p);
      StepsCanResolve(s, [] + [publish], p);
    }
  }

  /** A waiting promise can resolve in some continuation exactly when it is not lost. */
  lemma ResolvableExactlyUnlessLost(s: System, p: nat)
    requires Inv(s) && Waiting(s.client, p)
    ensures CanResolve(s, p) <==> !Lost(s, p)
  {
    NotLost(s, p);
    if Lost(s, p) {
      forall steps
        ensures !ResolvedAfter(s, steps, p)
      {
        LostNeverResolves(s, steps, p);
      }
    } else if Carried(s, s.client.promises[p].id) {
      CarriedCanResolve(s, p);
    } else {
      UndiscardedCanResolve(s, p);
    }
  }

  /** Some continuation loses the promise while it waits. */
  ghost predicate CanBeLost(s: System, p: nat) {
    exists steps :: LostAfter(s, steps, p)
  }

  ghost predicate LostAfter(s: System, steps: seq<Step>, p: nat) {
    Waiting(Run(s, steps).client, p) && Lost(Run(s, steps), p)
  }

  /** Any fate of an answer that carries the event settles the promise. */
  lemma CarriedStep(s: System, step: Step, p: nat)
    requires Inv(s) && Waiting(s.client, p) && Carried(s, s.client.promises[p].id)
    requires Waiting(Take(s, step).client, p)
    ensures Carried(Take(s, step), s.client.promises[p].id)
  {
    var id := s.client.promises[p].id;
    var events :| events in s.answers && Carries(events, id);
    if Enabled(s, step) {
      match step
      case Arrive(other) =>
        if other == events {
          DeliveredResolves(s.client, events, p, s.log);
        }
      case LoseAnswer(other, error) =>
        FailKeeps(s.client, error, s.log);
      case LosePoll(_, error) =>
        FailKeeps(s.client, error, s.log);
      case _ =>
    }
    assert events in Take(s, step).answers;
  }

  lemma {:induction false} CarriedStays(s: System, steps: seq<Step>, p: nat)
    requires Inv(s) && Waiting(s.client, p) && Carried(s, s.client.promises[p].id)
    requires Waiting(Run(s, steps).client, p)
    ensures Carried(Run(s, steps), s.client.promises[p].id)
  {
    if steps != [] {
      var n := |steps| - 1;
      var t := Run(s, steps[..n]);
      RunGrows(s, steps[..n]);
      TakeGrows(t, steps[n]);
      assert Waiting(t.client, p);
      CarriedStays(s, steps[..n], p);
      RunKeeps(s, steps[..n]);
      CarriedStep(t, steps[n], p);
    }
  }

  lemma ServedEmptyIsLost(s: System, p: nat, offset: int)
    requires Waiting(s.client, p) && !Carried(s, s.client.promises[p].id)
    requires s.floor <= s.client.promises[p].id < offset && offset in s.polls
    ensures LostAfter(s, [] + [Serve(offset, offset, [])], p)
  {
    var none: seq<Event> := [];
    RunSnoc(s, [], Serve(offset, offset, none));
    var t := Take(s, Serve(offset, offset, none));
    assert t == s.(polls := s.polls - multiset{offset}, floor := offset, answers := s.answers + multiset{none});
    forall events | events in t.answers
      ensures !Carries(events, s.client.promises[p].id)
    {
      assert events in s.answers || events == none;
    }
    NotLost(t, p);
  }

  /**
   * A waiting promise can lose its event for good exactly when its id is threatened, by the floor
   * or by the offset of a poll under way, and no answer under way carries the event.
   */
  lemma CanBeLostExactly(s: System, p: nat)
    requires Inv(s) && Waiting(s.client, p)
    ensures var id := s.client.promises[p].id;
      CanBeLost(s, p) <==> Threatened(s, id) && !Carried(s, id)
  {
    var id := s.client.promises[p].id;
    if Threatened(s, id) && !Carried(s, id) {
      NotLost(s, p);
      if s.floor > id {
        assert LostAfter(s, [], p);
      } else {
        var o :| o in s.polls && o > id;
        ServedEmptyIsLost(s, p, o);
      }
    } else {
      forall steps
        ensures !LostAfter(s, steps, p)
      {
        if Waiting(Run(s, steps).client, p) {
          RunGrows(s, steps);
          NotLost(Run(s, steps), p);
          if Carried(s, id) {
            CarriedStays(s, steps, p);
          } else {
            UnthreatenedStays(s, steps, p);
          }
        }
      }
    }
  }

  lemma {:induction false} ForeignEventsDoNotResolve(c: Client, events: seq<Event>, p: nat, log: map<int, Event>)
    requires ClientInv(c, log) && InLog(events, log)
    requires p < |c.promises| && forall e :: e in events ==> e.id != c.promises[p].id
    ensures p < |c.DeliverAll(events).promises| && c.DeliverAll(events).promises[p] == c.promises[p]
  {
    if events != [] {
      var n := |events| - 1;
      ForeignEventsDoNotResolve(c, events[..n], p, log);
      DeliverAllKeeps(c, events[..n], log);
      assert events[n] in events;
    }
  }

  /** Ids 1 and then 0 are requested, with a poll issued and served in between. */
  const LOSING_STEPS: seq<Step> := [Call(1), Tick(0), Publish(Event(0, "")), Serve(1, 1, []), Call(0)]

  lemma {:induction false} FiveSteps(s: System, a: Step, b: Step, c: Step, d: Step, e: Step)
    ensures Run(s, [a, b, c, d, e]) == Take(Take(Take(Take(Take(s, a), b), c), d), e)
  {
    RunSnoc(s, [], a);
    RunSnoc(s, [a], b);
    RunSnoc(s, [a, b], c);
    RunSnoc(s, [a, b, c], d);
    RunSnoc(s, [a, b, c, d], e);
    assert [] + [a] == [a];
    assert [a] + [b] == [a, b];
    assert [a, b] + [c] == [a, b, c];
    assert [a, b, c] + [d] == [a, b, c, d];
    assert [a, b, c, d] + [e] == [a, b, c, d, e];
  }

  /** A poll is issued, an event below its offset published, and the poll served with nothing. */
  lemma ServedOverEvent(s: System, e: Event, offset: nat)
    requires s.client.live == {0} && s.client.window.start == offset
    requires s.log == map[] && s.floor == 0 && s.polls == multiset{} && s.answers == multiset{}
    ensures Take(Take(Take(s, Tick(0)), Publish(e)), Serve(offset, offset, []))
         == System(s.client, map[e.id := e], offset, multiset{}, multiset{[]})
  {
    var ticked := Take(s, Tick(0));
    assert ticked == s.(polls := multiset{offset as int});
    var published := Take(ticked, Publish(e));
    assert published == ticked.(log := map[e.id := e]);
    var none: seq<Event> := [];
    assert Enabled(published, Serve(offset, offset, none));
  }

  lemma LosingState()
    ensures var s := Run(Init(), LOSING_STEPS);
      Waiting(s.client, 1) && s.client.promises[1].id == 0 && s.log == map[0 := Event(0, "")] && Lost(s, 1)
  {
    var e := Event(0, "");
    var called := Take(Init(), Call(1));
    FiveSteps(Init(), Call(1), Tick(0), Publish(e), Serve(1, 1, []), Call(0));
    ServedOverEvent(called, e, 1);
  }

  /**
   * Requests out of order are not safe: the offset of a poll issued for id 1 lets the server
   * discard event 0, which is requested next. That promise never resolves, whatever happens later.
   */
  lemma {:induction false} LateLowerRequestLosesItsEvent(later: seq<Step>)
    ensures var s := Run(Init(), LOSING_STEPS);
      && Waiting(s.client, 1) && s.client.promises[1].id in s.log
      && 1 < |Run(s, later).client.promises|
      && !Run(s, later).client.promises[1].outcome.Resolved?
  {
    LosingState();
    Reachable(LOSING_STEPS);
    LostNeverResolves(Run(Init(), LOSING_STEPS), later, 1);
  }

  // ---------------------------------------------------------------------------
  // One undisturbed round
  // ---------------------------------------------------------------------------

  /**
   * Progress: from any reachable state, let the running timer fire and its poll be served and
   * answered. A waiting promise whose published event is retained and part of the answer resolves
   * with that event. The timer does run, so the round can always take place.
   */
  lemma RoundResolves(s: System, p: nat, floor: int, events: seq<Event>)
    requires Inv(s) && Waiting(s.client, p)
    requires var id := s.client.promises[p].id; id in s.log && s.floor <= id && s.log[id] in events
    requires s.floor <= floor && (floor <= s.floor || floor <= s.client.window.start)
    requires forall e :: e in events ==> Retained(s, e)
    ensures s.client.polling.Some?
    ensures var ticked := Take(s, Tick(s.client.polling.value));
      var served := Take(ticked, Serve(s.client.window.start, floor, events));
      var done := Take(served, Arrive(events));
      && ticked != s && s.client.window.start <= s.client.promises[p].id
      && p < |done.client.promises|
      && done.client.promises[p].outcome == Resolved(s.log[s.client.promises[p].id])
  {
    ServedRound(s, floor, events);
    DeliverAllKeeps(s.client, events, s.log);
    DeliverAllGrows(s.client, events);
    DeliverAllCollects(s.client, events);
    var id := s.client.promises[p].id;
    var i :| 0 <= i < |events| && events[i] == s.log[id];
    assert events[i].id == id;
    assert !Waiting(s.client.DeliverAll(events), p);
  }

  lemma {:induction false} ServedRound(s: System, floor: int, events: seq<Event>)
    requires s.client.polling.Some? && s.client.polling.value in s.client.live
    requires s.floor <= floor && (floor <= s.floor || floor <= s.client.window.start)
    requires forall e :: e in events ==> Retained(s, e)
    ensures var ticked := Take(s, Tick(s.client.polling.value));
      var served := Take(ticked, Serve(s.client.window.start, floor, events));
      ticked != s && Take(served, Arrive(events)).client == s.client.DeliverAll(events)
  {
    var start := s.client.window.start;
    var ticked := Take(s, Tick(s.client.polling.value));
    assert ticked == s.(polls := s.polls + multiset{start});
    assert ticked.polls[start] == s.polls[start] + 1;
    assert Enabled(ticked, Serve(start, floor, events));
    var served := Take(ticked, Serve(start, floor, events));
    assert served.client == s.client && events in served.answers;
  }
}
