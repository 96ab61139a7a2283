/**
 * The polling client (packages/gateway/src/polling.ts): promises waiting for responses, their
 * listeners, the polling timer and the window.
 */
module Polling {
  import opened Wrappers
  import opened Windows

  datatype Event = Event(id: nat, body: string)

  datatype Outcome = Pending | Resolved(event: Event) | Rejected(error: string)

  /** A promise returned by response(id). It settles at most once; later attempts do nothing. */
  datatype Promise = Promise(id: nat, outcome: Outcome) {

    function Settle(o: Outcome): Promise {
      if outcome.Pending? then this.(outcome := o) else this
    }
  }

  /** The outermost window end of a subscription, which never closes by itself. */
  const UNBOUNDED: int := 0x20_0000_0000_0000

  /** Settles the promises in `who`. */
  function SettleAll(promises: seq<Promise>, who: seq<nat>, o: Outcome): (r: seq<Promise>)
    ensures |r| == |promises|
  {
    seq(|promises|, i requires 0 <= i < |promises| => if i in who then promises[i].Settle(o) else promises[i])
  }

  function Listeners(table: map<nat, seq<nat>>, id: nat): seq<nat> {
    if id in table then table[id] else []
  }

  /**
   * The value of a polling service. `promises` are the cells handed out so far; `listeners` and
   * `errorListeners` are the once-listeners that settle them, by index. `subscribers` counts the
   * subscription callbacks; `emitted` are the events and `failures` the errors that the first of
   * them was called with (a callback added after a failed poll is called beside it). `live` are the
   * interval timers that will fire, numbered in the order they were set.
   */
  datatype Client = Client(
    queueId: Option<nat>,
    window: State<Event>,
    promises: seq<Promise>,
    listeners: map<nat, seq<nat>>,
    errorListeners: seq<nat>,
    subscribers: nat,
    emitted: seq<Event>,
    failures: seq<string>,
    polling: Option<nat>,
    live: set<nat>,
    timers: nat)
  {
    function Start(): Client {
      this.(polling := Some(timers), live := live + {timers}, timers := timers + 1)
    }

    function Stop(): Client {
      this.(polling := None, live := if polling.Some? then live - {polling.value} else live)
    }

    /** response(id): a cached event resolves at once, otherwise the promise waits. */
    function Response(id: nat): Client {
      if id in window.collected then this.(promises := promises + [Promise(id, Resolved(window.collected[id]))])
      else
        var waiting := this.(
          window := window.Extend(id),
          promises := promises + [Promise(id, Pending)],
          listeners := listeners[id := Listeners(listeners, id) + [|promises|]],
          errorListeners := errorListeners + [|promises|]);
        if polling.None? then waiting.Start() else waiting
    }

    /** Emits one event on its topic, once-listeners being removed first. */
    function Emit(e: Event): Client {
      if queueId.None? then
        this.(
          promises := SettleAll(promises, Listeners(listeners, e.id), Resolved(e)),
          listeners := listeners - {e.id})
      else if subscribers > 0 then this.(emitted := emitted + [e])
      else this
    }

    /** One event of a poll answer. */
    function Deliver(e: Event): Client {
      var c := Emit(e);
      var c := c.(window := window.Slide(e.id, e));
      if c.window.IsClosed() then c.Stop() else c
    }

    function DeliverAll(events: seq<Event>): Client {
      if events == [] then this else DeliverAll(events[..|events| - 1]).Deliver(events[|events| - 1])
    }

    /** A failed poll: every waiting promise is rejected, callbacks get the error, and polling stops. */
    function Fail(error: string): Client {
      this.(
        promises := SettleAll(promises, errorListeners, Rejected(error)),
        errorListeners := [],
        failures := if subscribers > 0 then failures + [error] else failures).Stop()
    }

    /** None when the service is polling already, which is an error. */
    function Subscribe(): Option<Client> {
      if polling.Some? then None else Some(this.(subscribers := subscribers + 1).Start())
    }
  }

  /** PollingService.instance: a window without end for a subscription's queue. */
  function NewClient(queueId: Option<nat>): Client {
    Client(queueId, if queueId.Some? then State(0, UNBOUNDED, map[]) else State(-1, -1, map[]),
           [], map[], [], 0, [], [], None, {}, 0)
  }

  /** The listener tables only name promises that exist. */
  predicate InRange(c: Client) {
    && (forall id :: id in c.listeners ==> forall k :: 0 <= k < |c.listeners[id]| ==> c.listeners[id][k] < |c.promises|)
    && (forall k :: 0 <= k < |c.errorListeners| ==> c.errorListeners[k] < |c.promises|)
  }

  /** The client of a subscription begins with the window [0, 2^53), any other with a closed one. */
  lemma NewClients(queueId: nat)
    ensures var c := NewClient(Some(queueId));
      c.window == State(0, 9007199254740992, map[]) && c.polling.None? && c.live == {} && c.subscribers == 0
    ensures var c := NewClient(None);
      c.window.IsClosed() && c.window.collected == map[] && c.polling.None? && c.live == {} && c.promises == []
  {
  }

  /** Delivering leaves no timer running over a window that closes. */
  lemma ClosedWindowStops(c: Client, e: Event)
    requires c.live == (if c.polling.Some? then {c.polling.value} else {})
    ensures var d := c.Deliver(e);
      if d.window.IsClosed() then d.polling.None? && d.live == {} else d.polling == c.polling && d.live == c.live
  {
  }

  /** An answer slides its events into the window, in order. */
  lemma {:induction false} AnswerSlides(c: Client, events: seq<Event>)
    ensures c.DeliverAll(events).window
         == SlideAll(c.window, seq(|events|, i requires 0 <= i < |events| => (events[i].id, events[i])))
  {
    var items: seq<(int, Event)> := seq(|events|, i requires 0 <= i < |events| => (events[i].id, events[i]));
    if events != [] {
      var n := |events| - 1;
      AnswerSlides(c, events[..n]);
      assert items[..n]
          == seq(|events[..n]|, i requires 0 <= i < |events[..n]| => (events[..n][i].id, events[..n][i]));
    }
  }

  // ---------------------------------------------------------------------------
  // The program's own form
  // ---------------------------------------------------------------------------

  class PollingService {
    const queueId: Option<nat>
    const responseWindow: Window<Event>
    var promises: seq<Promise>
    var listeners: map<nat, seq<nat>>
    var errorListeners: seq<nat>
    var subscribers: nat
    var emitted: seq<Event>
    var failures: seq<string>
    var polling: Option<nat>
    var live: set<nat>
    var timers: nat

    ghost function Model(): Client
      reads this, responseWindow
    {
      Client(queueId, responseWindow.Model(), promises, listeners, errorListeners, subscribers, emitted, failures,
             polling, live, timers)
    }

    ghost predicate Valid()
      reads this, responseWindow
    {
      InRange(Model())
    }

    constructor (queueId: Option<nat>)
      ensures Valid() && Model() == NewClient(queueId)
      ensures fresh(responseWindow)
    {
      this.queueId := queueId;
      if queueId.Some? {
        responseWindow := new Window<Event>(Some(0), Some(UNBOUNDED));
      } else {
        responseWindow := new Window<Event>(None, None);
      }
      promises, listeners, errorListeners := [], map[], [];
      subscribers, emitted, failures := 0, [], [];
      polling, live, timers := None, {}, 0;
    }

    method Start()
      requires Valid()
      modifies this
      ensures Valid()
      ensures Model() == old(Model()).Start()
    {
      live := live + {timers};
      polling := Some(timers);
      timers := timers + 1;
    }

    method Stop()
      requires Valid()
      modifies this
      ensures Valid()
      ensures Model() == old(Model()).Stop()
    {
      if polling.Some? {
        live := live - {polling.value};
      }
      polling := None;
    }

    method Response(requestId: nat) returns (promise: nat)
      requires Valid()
      modifies this, responseWindow
      ensures Valid()
      ensures Model() == old(Model()).Response(requestId)
      ensures promise == old(|promises|)
    {
      promise := |promises|;
      var cached := responseWindow.Item(requestId);
      if cached.Some? {
        promises := promises + [Promise(requestId, Resolved(cached.value))];
        return;
      }
      responseWindow.Extend(requestId);
      promises := promises + [Promise(requestId, Pending)];
      listeners := listeners[requestId := Listeners(listeners, requestId) + [promise]];
      errorListeners := errorListeners + [promise];
      if polling.None? {
        Start();
      }
    }

    /** Calls once-listeners in turn. */
    method Call(who: seq<nat>, o: Outcome)
      requires forall k :: 0 <= k < |who| ==> who[k] < |promises|
      modifies this`promises
      ensures promises == SettleAll(old(promises), who, o)
    {
      ghost var before := promises;
      for k := 0 to |who|
        invariant promises == SettleAll(before, who[..k], o)
      {
        assert who[..k + 1] == who[..k] + [who[k]];
        promises := promises[who[k] := promises[who[k]].Settle(o)];
      }
      assert who[..|who|] == who;
    }

    /** One event of an answer is emitted, slid into the window, and may end polling. */
    method HandleEvent(r: Event)
      requires Valid()
      modifies this, responseWindow
      ensures Valid()
      ensures Model() == old(Model()).Deliver(r)
    {
      if queueId.None? {
        var who := Listeners(listeners, r.id);
        listeners := listeners - {r.id};
        Call(who, Resolved(r));
      } else if subscribers > 0 {
        emitted := emitted + [r];
      }
      responseWindow.Slide(r.id, r);
      var closed := responseWindow.IsClosed();
      if closed {
        Stop();
      }
    }

    method Answer(events: seq<Event>)
      requires Valid()
      modifies this, responseWindow
      ensures Valid()
      ensures Model() == old(Model()).DeliverAll(events)
    {
      for k := 0 to |events|
        invariant Model() == old(Model()).DeliverAll(events[..k])
        invariant Valid()
      {
        assert events[..k + 1][..k] == events[..k];
        HandleEvent(events[k]);
      }
      assert events[..|events|] == events;
    }

    method Failure(error: string)
      requires Valid()
      modifies this
      ensures Valid()
      ensures Model() == old(Model()).Fail(error)
    {
      var who := errorListeners;
      errorListeners := [];
      Call(who, Rejected(error));
      if subscribers > 0 {
        failures := failures + [error];
      }
      Stop();
    }

    method Subscribe() returns (ok: bool)
      requires Valid()
      modifies this
      ensures Valid()
      ensures ok == old(Model()).Subscribe().Some?
      ensures Model() == if ok then old(Model()).Subscribe().value else old(Model())
    {
      if polling.Some? {
        return false;
      }
      subscribers := subscribers + 1;
      Start();
      return true;
    }
  }
}
