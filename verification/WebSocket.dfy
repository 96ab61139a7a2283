/**
 * The JSON-RPC websocket (packages/web3/src/websocket.ts): request ids, requests that wait for a
 * connection, timeouts, reconnection and the trouble/ok signal. Frames follow JSON-RPC 2.0,
 * sections 4 and 5; close code 1000 is section 7.4.1 of RFC 6455.
 */
module WebSockets {
  datatype ReadyState = CONNECTING | OPEN | CLOSING | CLOSED

  datatype Request = Request(rpc: string, params: string)

  /** A response carries a result, or an error. */
  datatype Response = Result(result: string) | Failure(error: string)

  datatype Outcome = Pending | Resolved(result: string) | Rejected(error: string)

  datatype Signal = Trouble | Ok

  const ERROR_FORWARD_THRESHOLD: nat := 2
  const NORMAL: nat := 1000
  const TIMEOUT := "request timeout"

  /**
   * A call of request and its promise. A call that had to wait is linked: its promise follows the
   * promise of the request made again on open, and that one's rejection is only logged.
   */
  datatype Call = Call(request: Request, linked: bool, outcome: Outcome)

  /** A frame on the wire, the call it was sent for, and the promise of its own request. */
  datatype Frame = Frame(id: nat, request: Request, socket: nat, call: nat, outcome: Outcome)

  /** A promise settles at most once; later attempts do nothing. */
  function Settle(promise: Outcome, o: Outcome): Outcome {
    if promise.Pending? then o else promise
  }

  function Meaning(response: Response): Outcome {
    match response
    case Result(r) => Resolved(r)
    case Failure(e) => Rejected(e)
  }

  function Listeners(table: map<int, seq<nat>>, id: int): seq<nat> {
    if id in table then table[id] else []
  }

  /**
   * The value of a JsonRpcWebSocket and of the sockets it has made. `waiting` are the calls queued
   * on the lifecycle's open event; `responses` the frames listening for a response, by id; `timers`
   * the frames whose timeout is running; `signals` the trace of connectionState.
   */
  datatype Client = Client(
    sockets: seq<ReadyState>,
    current: nat,
    requestId: nat,
    consecutiveErrors: nat,
    closeOnOpen: bool,
    calls: seq<Call>,
    waiting: seq<nat>,
    frames: seq<Frame>,
    responses: map<int, seq<nat>>,
    timers: set<nat>,
    signals: seq<Signal>)
  {
    predicate Valid() {
      && current < |sockets|
      && (forall i :: 0 <= i < |waiting| ==> waiting[i] < |calls|)
      && (forall i :: 0 <= i < |frames| ==> frames[i].call < |calls|)
      && (forall id :: id in responses ==> forall i :: 0 <= i < |responses[id]| ==> responses[id][i] < |frames|)
      && (forall f :: f in timers ==> f < |frames|)
    }

    predicate IsOpen()
      requires Valid()
    {
      sockets[current].OPEN?
    }

    /** Sends a frame for a call on the current socket. */
    function Send(call: nat): (c: Client)
      requires Valid() && call < |calls|
      ensures c.Valid() && c.calls == calls && c.sockets == sockets && c.current == current
    {
      this.(
        requestId := requestId + 1,
        frames := frames + [Frame(requestId, calls[call].request, current, call, Pending)],
        timers := timers + {|frames|},
        responses := responses[requestId := Listeners(responses, requestId) + [|frames|]])
    }

    /** Queues a call until the next open event. */
    function Wait(call: nat): (c: Client)
      requires Valid() && call < |calls|
      ensures c.Valid() && |c.calls| == |calls| && c.sockets == sockets && c.current == current
    {
      this.(calls := calls[call := calls[call].(linked := true)], waiting := waiting + [call])
    }

    function SendOrWait(call: nat): (c: Client)
      requires Valid() && call < |calls|
      ensures c.Valid() && |c.calls| == |calls| && c.sockets == sockets && c.current == current
    {
      if IsOpen() then Send(call) else Wait(call)
    }

    function MakeRequest(request: Request): (c: Client)
      requires Valid()
      ensures c.Valid()
    {
      this.(calls := calls + [Call(request, false, Pending)]).SendOrWait(|calls|)
    }

    /** The once-listeners of the open event, called in the order they were added. */
    function Retry(queued: seq<nat>): (c: Client)
      requires Valid() && forall i :: 0 <= i < |queued| ==> queued[i] < |calls|
      ensures c.Valid() && |c.calls| == |calls| && c.sockets == sockets && c.current == current
      ensures c.closeOnOpen == closeOnOpen && c.consecutiveErrors == consecutiveErrors && c.signals == signals
      decreases |queued|
    {
      if queued == [] then this
      else Retry(queued[..|queued| - 1]).SendOrWait(queued[|queued| - 1])
    }

    /** websocket.close on the current socket. */
    function CloseCurrent(): (c: Client)
      requires Valid()
      ensures c.Valid()
    {
      if sockets[current].CONNECTING? || sockets[current].OPEN?
      then this.(sockets := sockets[current := CLOSING]) else this
    }

    /** Socket k has opened, and the listeners of the open event have run. */
    function Retried(k: nat): (c: Client)
      requires Valid() && k < |sockets|
      ensures c.Valid() && c.sockets == sockets[k := OPEN] && c.current == current
    {
      this.(sockets := sockets[k := OPEN], waiting := []).Retry(waiting)
    }

    /** The rest of the open handler: finish a disconnect, or signal that the trouble is over. */
    function Opened(): (c: Client)
      requires Valid()
      ensures c.Valid()
    {
      if closeOnOpen then CloseCurrent()
      else
        this.(
          signals := if consecutiveErrors >= ERROR_FORWARD_THRESHOLD then signals + [Ok] else signals,
          consecutiveErrors := 0)
    }

    /** The handler of the open event of socket k. */
    function Open(k: nat): (c: Client)
      requires Valid() && k < |sockets|
      ensures c.Valid()
    {
      Retried(k).Opened()
    }

    function Error(): (c: Client)
      requires Valid()
      ensures c.Valid()
    {
      this.(
        consecutiveErrors := consecutiveErrors + 1,
        signals := if consecutiveErrors + 1 == ERROR_FORWARD_THRESHOLD then signals + [Trouble] else signals)
    }

    function Connect(): (c: Client)
      requires Valid()
      ensures c.Valid()
    {
      this.(sockets := sockets + [CONNECTING], current := |sockets|)
    }

    /** Socket k has closed; any code but the normal one reconnects. */
    function Close(k: nat, code: nat): (c: Client)
      requires Valid() && k < |sockets|
      ensures c.Valid()
    {
      var closed := this.(sockets := sockets[k := CLOSED]);
      if code != NORMAL then closed.Connect() else closed
    }

    function Disconnect(): (c: Client)
      requires Valid()
      ensures c.Valid()
    {
      if sockets[current].OPEN? then CloseCurrent()
      else if sockets[current].CONNECTING? then this.(closeOnOpen := true)
      else this
    }

    /** Settles the promise of frame f, and the promise of its call as far as that follows it. */
    function SettleFrame(f: nat, o: Outcome): (c: Client)
      requires Valid() && f < |frames|
      ensures c.Valid() && |c.calls| == |calls| && |c.frames| == |frames|
      ensures c.responses == responses && c.timers == timers
    {
      var frame, call := frames[f], calls[frames[f].call];
      var settled := Settle(frame.outcome, o);
      this.(
        frames := frames[f := frame.(outcome := settled)],
        calls := calls[frame.call := call.(
          outcome := if call.linked && !settled.Resolved? then call.outcome else Settle(call.outcome, settled))])
    }

    /** A response on the topic of `id`: its listeners are removed and called in turn. */
    function Message(id: int, response: Response): (c: Client)
      requires Valid()
      ensures c.Valid()
    {
      this.(responses := responses - {id}).Respond(Listeners(responses, id), response)
    }

    function Respond(listening: seq<nat>, response: Response): (c: Client)
      requires Valid() && forall i :: 0 <= i < |listening| ==> listening[i] < |frames|
      ensures c.Valid() && |c.frames| == |frames|
      decreases |listening|
    {
      if listening == [] then this
      else
        var c := Respond(listening[..|listening| - 1], response);
        var f := listening[|listening| - 1];
        c.(timers := c.timers - {f}).SettleFrame(f, Meaning(response))
    }

    /** The timeout of frame f fires. Its removeListener call names no event and removes nothing. */
    function Timeout(f: nat): (c: Client)
      requires Valid() && f < |frames|
      ensures c.Valid()
    {
      this.(timers := timers - {f}).SettleFrame(f, Rejected(TIMEOUT))
    }
  }

  function NewClient(): (c: Client)
    ensures c.Valid()
  {
    Client([CONNECTING], 0, 0, 0, false, [], [], [], map[], {}, [])
  }

  // ---------------------------------------------------------------------------
  // Runs
  // ---------------------------------------------------------------------------

  /**
   * What can happen next. Sockets that connect() or a reconnect has replaced still open, close and
   * deliver messages, because their listeners are never taken off. PeerCloses is the beginning of
   * the closing handshake by the other side, before the close event.
   */
  datatype Step =
    | MakeCall(request: Request)
    | SocketOpens(socket: nat)
    | SocketFails
    | PeerCloses(socket: nat)
    | SocketCloses(socket: nat, code: nat)
    | Receive(socket: nat, id: int, response: Response)
    | TimeoutFires(frame: nat)
    | Reconnect
    | Disconnect

  /**
   * Socket k delivers messages: while it is open, and for a socket that delivers while closing
   * (the ws package does, a browser does not) until it has closed.
   */
  predicate Delivers(c: Client, k: nat, whileClosing: bool) {
    k < |c.sockets| && (c.sockets[k].OPEN? || (whileClosing && c.sockets[k].CLOSING?))
  }

  predicate Enabled(c: Client, step: Step) {
    match step
    case SocketOpens(k) => k < |c.sockets| && c.sockets[k].CONNECTING?
    case PeerCloses(k) => k < |c.sockets| && c.sockets[k].OPEN?
    case Receive(k, id, response) => Delivers(c, k, true)
    case SocketCloses(k, code) => k < |c.sockets| && !c.sockets[k].CLOSED?
    case TimeoutFires(f) => f in c.timers
    case _ => true
  }

  /** A step that cannot happen changes nothing. */
  function Take(c: Client, step: Step): (r: Client)
    requires c.Valid()
    ensures r.Valid()
  {
    if !Enabled(c, step) then c
    else
      match step
      case MakeCall(request) => c.MakeRequest(request)
      case SocketOpens(k) => c.Open(k)
      case SocketFails => c.Error()
      case PeerCloses(k) => c.(sockets := c.sockets[k := CLOSING])
      case SocketCloses(k, code) => c.Close(k, code)
      case Receive(_, id, response) => c.Message(id, response)
      case TimeoutFires(f) => c.Timeout(f)
      case Reconnect => c.Connect()
      case Disconnect => c.Disconnect()
  }

  function Run(c: Client, steps: seq<Step>): (r: Client)
    requires c.Valid()
    ensures r.Valid()
  {
    if steps == [] then c else Take(Run(c, steps[..|steps| - 1]), steps[|steps| - 1])
  }

  // ---------------------------------------------------------------------------
  // The invariant
  // ---------------------------------------------------------------------------

  /** Frame i carries id i and is the i-th call of request. */
  ghost predicate FramesInOrder(c: Client) {
    && c.requestId == |c.frames| <= |c.calls|
    && forall i :: 0 <= i < |c.frames| ==>
         c.frames[i].id == i && c.frames[i].call == i && c.frames[i].request == c.calls[i].request
  }

  /** The calls that have no frame yet wait in the order they were made; none waits for an open socket. */
  ghost predicate WaitingInOrder(c: Client)
    requires c.Valid()
  {
    && |c.waiting| == |c.calls| - |c.frames|
    && (forall j :: 0 <= j < |c.waiting| ==> c.waiting[j] == |c.frames| + j)
    && (forall i :: |c.frames| <= i < |c.calls| ==> c.calls[i].linked && c.calls[i].outcome.Pending?)
    && (c.IsOpen() ==> c.waiting == [])
  }

  /** Frame i listens under id i alone, and its timeout runs exactly until it is settled. */
  ghost predicate OwnListeners(c: Client) {
    && (forall id :: id in c.responses ==> 0 <= id < |c.frames| && c.responses[id] == [id])
    && (forall f :: f in c.timers <==> 0 <= f < |c.frames| && c.frames[f].outcome.Pending?)
    && (forall f :: 0 <= f < |c.frames| && c.frames[f].outcome.Pending? ==> f in c.responses)
  }

  /** A linked call follows its frame when that resolves, and ignores its rejection. */
  ghost predicate CallsFollowFrames(c: Client) {
    |c.frames| <= |c.calls| &&
    forall i :: 0 <= i < |c.frames| ==>
      c.calls[i].outcome ==
        if c.calls[i].linked && !c.frames[i].outcome.Resolved? then Pending else c.frames[i].outcome
  }

  ghost predicate FramesInv(c: Client) {
    c.Valid() && FramesInOrder(c) && OwnListeners(c) && CallsFollowFrames(c)
  }

  /** The trace of connectionState: trouble, ok, trouble, ok, ..., and its last word. */
  ghost predicate SignalsInv(c: Client) {
    && (forall i :: 0 <= i < |c.signals| ==> c.signals[i] == if i % 2 == 0 then Trouble else Ok)
    && (|c.signals| % 2 == 1 <==> c.consecutiveErrors >= ERROR_FORWARD_THRESHOLD)
  }

  ghost predicate Inv(c: Client) {
    FramesInv(c) && WaitingInOrder(c) && SignalsInv(c)
  }

  lemma SendKeeps(c: Client)
    requires FramesInv(c) && |c.frames| < |c.calls| && c.calls[|c.frames|].outcome.Pending?
    ensures FramesInv(c.Send(|c.frames|))
    ensures |c.Send(|c.frames|).frames| == |c.frames| + 1
  {
    var r := c.Send(|c.frames|);
    var own: seq<nat> := [|c.frames|];
    assert Listeners(c.responses, |c.frames|) + own == own;
    assert r.responses == c.responses[|c.frames| := own];
  }

  /** What a retry leaves alone. */
  ghost predicate SameConnection(c: Client, d: Client) {
    && d.sockets == c.sockets && d.current == c.current && d.signals == c.signals
    && d.consecutiveErrors == c.consecutiveErrors && d.closeOnOpen == c.closeOnOpen
  }

  /** On an open socket, the waiting calls are all sent, in order. */
  lemma {:induction false} RetryOpen(c: Client, queued: seq<nat>)
    requires FramesInv(c) && c.IsOpen()
    requires |c.frames| + |queued| <= |c.calls|
    requires forall j :: 0 <= j < |queued| ==> queued[j] == |c.frames| + j
    requires forall i :: |c.frames| <= i < |c.calls| ==> c.calls[i].outcome.Pending?
    ensures var r := c.Retry(queued);
      && FramesInv(r) && SameConnection(c, r) && r.calls == c.calls && r.waiting == c.waiting
      && |r.frames| == |c.frames| + |queued|
      && r.frames[..|c.frames|] == c.frames
      && (forall f :: |c.frames| <= f < |r.frames| ==> r.frames[f].outcome.Pending?)
  {
    if queued != [] {
      var n := |queued| - 1;
      RetryOpen(c, queued[..n]);
      SendKeeps(c.Retry(queued[..n]));
    }
  }

  /** On a socket that is not open, the waiting calls are queued again, in order. */
  lemma {:induction false} RetryClosed(c: Client, queued: seq<nat>)
    requires c.Valid() && !c.IsOpen()
    requires forall j :: 0 <= j < |queued| ==> queued[j] < |c.calls| && c.calls[queued[j]].linked
    ensures c.Retry(queued) == c.(waiting := c.waiting + queued)
  {
    if queued != [] {
      var n := |queued| - 1;
      RetryClosed(c, queued[..n]);
      var r := c.Retry(queued[..n]);
      var call := queued[n];
      assert r.calls[call := r.calls[call].(linked := true)] == r.calls;
      assert c.waiting + queued == c.waiting + queued[..n] + [call];
    } else {
      assert c.waiting + queued == c.waiting;
    }
  }

  /** Settling a frame by response or timeout: its timer stops, and its listener may be gone. */
  lemma SettleKeeps(c: Client, f: nat, o: Outcome, responses: map<int, seq<nat>>)
    requires FramesInv(c) && f < |c.frames| && !o.Pending?
    requires responses == c.responses || responses == c.responses - {f}
    ensures c.(responses := responses, timers := c.timers - {f}).Valid()
    ensures FramesInv(c.(responses := responses, timers := c.timers - {f}).SettleFrame(f, o))
  {
    var d := c.(responses := responses, timers := c.timers - {f});
    var r := d.SettleFrame(f, o);
    assert forall i :: 0 <= i < |r.frames| && i != f ==> r.frames[i] == c.frames[i];
    assert forall i :: 0 <= i < |r.calls| && i != f ==> r.calls[i] == c.calls[i];
  }

  /** A response settles the frame of its id, if that listens, and nothing else. */
  lemma MessageIsOwn(c: Client, id: int, response: Response)
    requires FramesInv(c)
    ensures id !in c.responses ==> c.Message(id, response) == c
    ensures id in c.responses ==>
      && c.(responses := c.responses - {id}, timers := c.timers - {id}).Valid()
      && c.Message(id, response)
         == c.(responses := c.responses - {id}, timers := c.timers - {id}).SettleFrame(id, Meaning(response))
  {
    if id in c.responses {
      var d := c.(responses := c.responses - {id});
      var listening: seq<nat> := [id];
      assert Listeners(c.responses, id) == listening;
      assert listening[..0] == [];
      assert d.Respond(listening[..0], response) == d;
    } else {
      assert c.responses - {id} == c.responses;
    }
  }

  lemma MessageKeeps(c: Client, id: int, response: Response)
    requires Inv(c)
    ensures Inv(c.Message(id, response))
  {
    MessageIsOwn(c, id, response);
    if id in c.responses {
      SettleKeeps(c, id, Meaning(response), c.responses - {id});
    }
  }

  /** Recording a call that has no frame yet. */
  lemma RecordKeeps(c: Client, call: Call)
    requires FramesInv(c)
    ensures FramesInv(c.(calls := c.calls + [call]))
  {
    var d := c.(calls := c.calls + [call]);
    assert forall i :: 0 <= i < |c.calls| ==> d.calls[i] == c.calls[i];
  }

  lemma CallKeeps(c: Client, request: Request)
    requires Inv(c)
    ensures Inv(c.MakeRequest(request))
  {
    var d := c.(calls := c.calls + [Call(request, false, Pending)]);
    if c.IsOpen() {
      RecordKeeps(c, Call(request, false, Pending));
      SendKeeps(d);
    } else {
      RecordKeeps(c, Call(request, true, Pending));
      var r := d.Wait(|c.calls|);
      assert r.calls == c.calls + [Call(request, true, Pending)];
      assert r == c.(calls := r.calls, waiting := c.waiting + [|c.calls|]);
    }
  }

  lemma RetriedOpen(c: Client, k: nat)
    requires Inv(c) && k < |c.sockets| && c.sockets[k := OPEN][c.current].OPEN?
    ensures var r := c.Retried(k);
      && FramesInv(r) && SameConnection(c.(sockets := c.sockets[k := OPEN]), r)
      && r.calls == c.calls && r.waiting == [] && |r.frames| == |r.calls|
      && r.frames[..|c.frames|] == c.frames
      && (forall f :: |c.frames| <= f < |r.frames| ==> r.frames[f].outcome.Pending?)
  {
    var d := c.(sockets := c.sockets[k := OPEN], waiting := []);
    RetryOpen(d, c.waiting);
  }

  lemma RetriedClosed(c: Client, k: nat)
    requires Inv(c) && k < |c.sockets| && !c.sockets[k := OPEN][c.current].OPEN?
    ensures c.Retried(k) == c.(sockets := c.sockets[k := OPEN])
  {
    var d := c.(sockets := c.sockets[k := OPEN], waiting := []);
    RetryClosed(d, c.waiting);
    assert [] + c.waiting == c.waiting;
  }

  /** When socket k opens, everything waiting is sent if the current socket is open, else queued again. */
  lemma RetriedKeeps(c: Client, k: nat)
    requires Inv(c) && k < |c.sockets|
    ensures var r := c.Retried(k);
      && Inv(r) && SameConnection(c.(sockets := c.sockets[k := OPEN]), r)
      && r.calls == c.calls
      && |r.frames| >= |c.frames| && r.frames[..|c.frames|] == c.frames
      && (r.IsOpen() ==> |r.frames| == |r.calls|)
      && (forall f :: |c.frames| <= f < |r.frames| ==> r.frames[f].outcome.Pending?)
  {
    if c.sockets[k := OPEN][c.current].OPEN? {
      RetriedOpen(c, k);
    } else {
      RetriedClosed(c, k);
    }
  }

  lemma OpenedKeeps(c: Client)
    requires Inv(c)
    ensures Inv(c.Opened())
    ensures c.Opened().calls == c.calls && c.Opened().frames == c.frames
  {
  }

  lemma OpenKeeps(c: Client, k: nat)
    requires Inv(c) && k < |c.sockets|
    ensures Inv(c.Open(k))
  {
    RetriedKeeps(c, k);
    OpenedKeeps(c.Retried(k));
  }

  lemma TimeoutKeeps(c: Client, f: nat)
    requires Inv(c) && f < |c.frames|
    ensures Inv(c.Timeout(f))
  {
    SettleKeeps(c, f, Rejected(TIMEOUT), c.responses);
    assert c.(responses := c.responses, timers := c.timers - {f}) == c.(timers := c.timers - {f});
  }

  lemma ErrorKeeps(c: Client)
    requires Inv(c)
    ensures Inv(c.Error())
  {
  }

  /** Changes of the sockets alone keep the invariant when they open nothing. */
  lemma SocketsKeep(c: Client, sockets: seq<ReadyState>, current: nat, closeOnOpen: bool)
    requires Inv(c) && current < |sockets| && (sockets[current].OPEN? ==> c.IsOpen())
    ensures Inv(c.(sockets := sockets, current := current, closeOnOpen := closeOnOpen))
  {
  }

  lemma TakeKeeps(c: Client, step: Step)
    requires Inv(c)
    ensures Inv(Take(c, step))
  {
    if Enabled(c, step) {
      match step
      case MakeCall(request) => CallKeeps(c, request);
      case SocketOpens(k) => OpenKeeps(c, k);
      case SocketFails => ErrorKeeps(c);
      case PeerCloses(k) => SocketsKeep(c, Take(c, step).sockets, c.current, c.closeOnOpen);
      case SocketCloses(k, code) => SocketsKeep(c, Take(c, step).sockets, Take(c, step).current, c.closeOnOpen);
      case Receive(_, id, response) => MessageKeeps(c, id, response);
      case TimeoutFires(f) => TimeoutKeeps(c, f);
      case Reconnect => SocketsKeep(c, Take(c, step).sockets, Take(c, step).current, c.closeOnOpen);
      case Disconnect => SocketsKeep(c, Take(c, step).sockets, c.current, Take(c, step).closeOnOpen);
    }
  }

  lemma {:induction false} RunKeeps(c: Client, steps: seq<Step>)
    requires Inv(c)
    ensures Inv(Run(c, steps))
  {
    if steps != [] {
      RunKeeps(c, steps[..|steps| - 1]);
      TakeKeeps(Run(c, steps[..|steps| - 1]), steps[|steps| - 1]);
    }
  }

  // ---------------------------------------------------------------------------
  // What holds in every run
  // ---------------------------------------------------------------------------

  lemma {:induction false} Reachable(steps: seq<Step>)
    ensures Inv(Run(NewClient(), steps))
  {
    InitInv();
    RunKeeps(NewClient(), steps);
  }

  lemma InitInv()
    ensures Inv(NewClient())
  {
  }

  lemma InOrder(c: Client)
    requires Inv(c)
    ensures c.waiting == seq(|c.calls| - |c.frames|, j => |c.frames| + j)
    ensures c.IsOpen() ==> |c.frames| == |c.calls|
  {
  }

  /** The calls of request in the run, each with whether the connection was not open then. */
  function Made(steps: seq<Step>): seq<(Request, bool)> {
    if steps == [] then []
    else
      var before, step := steps[..|steps| - 1], steps[|steps| - 1];
      Made(before) + if step.MakeCall? then [(step.request, !Run(NewClient(), before).IsOpen())] else []
  }

  ghost predicate AreCalls(calls: seq<Call>, made: seq<(Request, bool)>) {
    && |calls| == |made|
    && forall i :: 0 <= i < |made| ==> calls[i].request == made[i].0 && calls[i].linked == made[i].1
  }

  lemma RequestMakes(c: Client, request: Request, made: seq<(Request, bool)>)
    requires Inv(c) && AreCalls(c.calls, made)
    ensures AreCalls(c.MakeRequest(request).calls, made + [(request, !c.IsOpen())])
  {
    CallGrows(c, request);
  }

  lemma OtherStepMakes(c: Client, step: Step)
    requires Inv(c) && !step.MakeCall?
    ensures var d := Take(c, step);
      && |d.calls| == |c.calls|
      && forall i :: 0 <= i < |c.calls| ==>
           d.calls[i].request == c.calls[i].request && d.calls[i].linked == c.calls[i].linked
  {
    if Enabled(c, step) {
      match step
      case SocketOpens(k) => OpenGrows(c, k);
      case Receive(_, id, response) => MessageIsOwn(c, id, response);
      case _ =>
    }
  }

  lemma CallStepMakes(c: Client, step: Step, made: seq<(Request, bool)>)
    requires Inv(c) && AreCalls(c.calls, made)
    ensures AreCalls(Take(c, step).calls, made + if step.MakeCall? then [(step.request, !c.IsOpen())] else [])
  {
    if step.MakeCall? {
      RequestMakes(c, step.request, made);
    } else {
      assert made + [] == made;
      OtherStepMakes(c, step);
    }
  }

  /** Over any run, the recorded calls are those made, and a call is linked exactly if it had to wait. */
  lemma {:induction false} CallsAreThoseMade(steps: seq<Step>)
    ensures AreCalls(Run(NewClient(), steps).calls, Made(steps))
  {
    if steps != [] {
      var n := |steps| - 1;
      CallsAreThoseMade(steps[..n]);
      Reachable(steps[..n]);
      CallStepMakes(Run(NewClient(), steps[..n]), steps[n], Made(steps[..n]));
    }
  }

  /**
   * Over any run, frames carry the ids 0, 1, 2, ... in the order request was called: frame i is
   * the i-th call. Every call is sent exactly once or waits, the waiting ones in order, and none
   * waits while the current socket is open.
   */
  lemma {:induction false} CallsAreSentInOrder(steps: seq<Step>)
    ensures var c := Run(NewClient(), steps);
      && c.requestId == |c.frames| <= |c.calls| == |Made(steps)|
      && (forall i :: 0 <= i < |c.frames| ==>
            c.frames[i].id == i && c.frames[i].call == i && c.frames[i].request == Made(steps)[i].0)
      && c.waiting == seq(|c.calls| - |c.frames|, j => |c.frames| + j)
      && (c.IsOpen() ==> |c.frames| == |c.calls|)
  {
    Reachable(steps);
    CallsAreThoseMade(steps);
    InOrder(Run(NewClient(), steps));
  }

  /** Frame f has resolved, and so has the promise of its call. */
  ghost predicate Resolves(d: Client, f: nat, result: string) {
    f < |d.frames| && f < |d.calls|
    && d.frames[f].outcome == Resolved(result) && d.calls[f].outcome == Resolved(result)
  }

  /** Frame f has been rejected, and so has the promise of its call unless that had to wait. */
  ghost predicate Rejects(d: Client, f: nat, error: string) {
    f < |d.frames| && f < |d.calls|
    && d.frames[f].outcome == Rejected(error)
    && d.calls[f].outcome == if d.calls[f].linked then Pending else Rejected(error)
  }

  lemma ResultResolves(c: Client, k: nat, f: nat, result: string)
    requires Inv(c) && f < |c.frames| && c.frames[f].outcome.Pending? && Delivers(c, k, true)
    ensures Resolves(Take(c, Receive(k, f, Result(result))), f, result)
  {
    MessageIsOwn(c, f, Result(result));
  }

  lemma FailureRejects(c: Client, k: nat, f: nat, error: string)
    requires Inv(c) && f < |c.frames| && c.frames[f].outcome.Pending? && Delivers(c, k, true)
    ensures Rejects(Take(c, Receive(k, f, Failure(error))), f, error)
  {
    MessageIsOwn(c, f, Failure(error));
  }

  lemma TimeoutRejects(c: Client, f: nat)
    requires Inv(c) && f < |c.frames| && c.frames[f].outcome.Pending?
    ensures Rejects(Take(c, TimeoutFires(f)), f, TIMEOUT)
  {
    assert f in c.timers;
  }

  /**
   * Over any run, each unsettled frame has its timeout running and its listener in place: the
   * timeout rejects it, and of what a socket delivers, a result resolves it and an error response
   * rejects it.
   */
  lemma {:induction false} UnsettledFramesHaveTimers(steps: seq<Step>, f: nat)
    requires f < |Run(NewClient(), steps).frames|
    ensures var c := Run(NewClient(), steps);
      && (c.frames[f].outcome.Pending? <==> f in c.timers)
      && (c.frames[f].outcome.Pending? ==>
            && Rejects(Take(c, TimeoutFires(f)), f, TIMEOUT)
            && (forall k, r :: Delivers(c, k, true) ==> Resolves(Take(c, Receive(k, f, Result(r))), f, r))
            && (forall k, e :: Delivers(c, k, true) ==> Rejects(Take(c, Receive(k, f, Failure(e))), f, e)))
  {
    Reachable(steps);
    var c := Run(NewClient(), steps);
    if c.frames[f].outcome.Pending? {
      TimeoutRejects(c, f);
      forall k, r | Delivers(c, k, true)
        ensures Resolves(Take(c, Receive(k, f, Result(r))), f, r)
      {
        ResultResolves(c, k, f, r);
      }
      forall k, e | Delivers(c, k, true)
        ensures Rejects(Take(c, Receive(k, f, Failure(e))), f, e)
      {
        FailureRejects(c, k, f, e);
      }
    }
  }

  /**
   * A timeout leaves its frame's listener in place, so a late response still reaches it: it is
   * removed then, and no promise changes any more.
   */
  lemma LateResponseIsHarmless(c: Client, f: nat, k: nat, response: Response)
    requires Inv(c) && f in c.timers && Delivers(c, k, true)
    ensures var timedOut := Take(c, TimeoutFires(f));
      var late := Take(timedOut, Receive(k, f, response));
      && timedOut.responses == c.responses && f in timedOut.responses
      && late.responses == c.responses - {f}
      && late.calls == timedOut.calls && late.frames == timedOut.frames && late.timers == c.timers - {f}
  {
    var timedOut := Take(c, TimeoutFires(f));
    TimeoutKeeps(c, f);
    TimeoutRejects(c, f);
    MessageIsOwn(timedOut, f, response);
    SettledStays(timedOut, f, Meaning(response), c.responses - {f});
  }

  lemma SettledStays(c: Client, f: nat, o: Outcome, responses: map<int, seq<nat>>)
    requires FramesInv(c) && f < |c.frames| && !c.frames[f].outcome.Pending? && f !in c.timers
    requires c.(responses := responses, timers := c.timers - {f}).Valid()
    ensures var d := c.(responses := responses, timers := c.timers - {f}).SettleFrame(f, o);
      d.calls == c.calls && d.frames == c.frames && d.timers == c.timers && d.responses == responses
  {
    assert c.timers - {f} == c.timers;
    assert c.frames[f := c.frames[f].(outcome := c.frames[f].outcome)] == c.frames;
    var call := c.calls[f];
    assert c.calls[f := call.(outcome := call.outcome)] == c.calls;
  }

  /** Promises keep their index, and settled ones their outcome. */
  ghost predicate Grows(c: Client, d: Client) {
    && |c.calls| <= |d.calls| && |c.frames| <= |d.frames|
    && (forall i :: 0 <= i < |c.calls| ==>
          && d.calls[i].request == c.calls[i].request
          && (c.calls[i].linked ==> d.calls[i].linked)
          && (c.calls[i].outcome.Pending? || d.calls[i].outcome == c.calls[i].outcome))
    && (forall f :: 0 <= f < |c.frames| ==>
          && d.frames[f] == c.frames[f].(outcome := d.frames[f].outcome)
          && (c.frames[f].outcome.Pending? || d.frames[f] == c.frames[f]))
  }

  lemma OpenGrows(c: Client, k: nat)
    requires Inv(c) && k < |c.sockets|
    ensures Grows(c, c.Open(k)) && c.Open(k).calls == c.calls
    ensures forall f :: 0 <= f < |c.frames| ==> c.Open(k).frames[f] == c.frames[f]
  {
    RetriedKeeps(c, k);
    var r := c.Retried(k);
    OpenedKeeps(r);
    assert forall f :: 0 <= f < |c.frames| ==> r.frames[f] == r.frames[..|c.frames|][f];
  }

  lemma CallGrows(c: Client, request: Request)
    requires Inv(c)
    ensures Grows(c, c.MakeRequest(request))
    ensures forall p :: 0 <= p < |c.calls| ==> c.MakeRequest(request).calls[p] == c.calls[p]
    ensures forall f :: 0 <= f < |c.frames| ==> c.MakeRequest(request).frames[f] == c.frames[f]
  {
    var d := c.(calls := c.calls + [Call(request, false, Pending)]);
    assert c.MakeRequest(request) == d.SendOrWait(|c.calls|);
  }

  /** Settling frame f changes the outcomes of frame f and call f at most, if they are pending. */
  lemma SettleGrows(c: Client, f: nat, o: Outcome, responses: map<int, seq<nat>>)
    requires FramesInv(c) && f < |c.frames|
    requires c.(responses := responses, timers := c.timers - {f}).Valid()
    ensures var d := c.(responses := responses, timers := c.timers - {f}).SettleFrame(f, o);
      && Grows(c, d)
      && (forall p :: 0 <= p < |c.calls| && d.calls[p].outcome != c.calls[p].outcome ==>
            p == f && c.calls[f].outcome.Pending? && c.frames[f].outcome.Pending?)
      && (forall p :: 0 <= p < |c.frames| && d.frames[p].outcome != c.frames[p].outcome ==>
            p == f && c.frames[f].outcome.Pending?)
  {
  }

  /** What a step that settles promise p and nothing else does to the promises. */
  ghost predicate SettlesAtMost(c: Client, d: Client, p: int) {
    && Grows(c, d)
    && (forall i :: 0 <= i < |c.calls| && d.calls[i].outcome != c.calls[i].outcome ==>
          i == p && i < |c.frames| && c.calls[i].outcome.Pending? && c.frames[i].outcome.Pending?)
    && (forall i :: 0 <= i < |c.frames| && d.frames[i].outcome != c.frames[i].outcome ==>
          i == p && c.frames[i].outcome.Pending?)
  }

  lemma MessageSettles(c: Client, id: int, response: Response)
    requires Inv(c)
    ensures SettlesAtMost(c, c.Message(id, response), id)
  {
    MessageIsOwn(c, id, response);
    if id in c.responses {
      SettleGrows(c, id, Meaning(response), c.responses - {id});
    }
  }

  lemma TimeoutSettles(c: Client, f: nat)
    requires Inv(c) && f < |c.frames|
    ensures SettlesAtMost(c, c.Timeout(f), f)
  {
    SettleGrows(c, f, Rejected(TIMEOUT), c.responses);
    assert c.(responses := c.responses, timers := c.timers - {f}) == c.(timers := c.timers - {f});
  }

  /** The promise that a step may settle, -1 if none. */
  function Settles(step: Step): int {
    match step
    case TimeoutFires(f) => f
    case Receive(_, id, _) => id
    case _ => -1
  }

  /**
   * Each promise settles at most once, and only by its own timeout or by a response that bears its
   * own frame's id: any step that changes the outcome of call p is one of these two, found it
   * pending, and call p had been sent.
   */
  lemma SettledOnlyByOwn(c: Client, step: Step)
    requires Inv(c)
    ensures SettlesAtMost(c, Take(c, step), Settles(step))
  {
    if Enabled(c, step) {
      match step
      case MakeCall(request) => CallGrows(c, request);
      case SocketOpens(k) => OpenGrows(c, k);
      case Receive(_, id, response) => MessageSettles(c, id, response);
      case TimeoutFires(f) => TimeoutSettles(c, f);
      case _ =>
    }
  }

  lemma {:induction false} RunGrows(c: Client, steps: seq<Step>)
    requires Inv(c)
    ensures Grows(c, Run(c, steps))
  {
    if steps != [] {
      var n := |steps| - 1;
      RunGrows(c, steps[..n]);
      RunKeeps(c, steps[..n]);
      SettledOnlyByOwn(Run(c, steps[..n]), steps[n]);
    }
  }

  // ---------------------------------------------------------------------------
  // Which promises can still settle
  // ---------------------------------------------------------------------------

  /** The frames have been sent on sockets that were open. */
  ghost predicate FrameSockets(c: Client) {
    forall f :: 0 <= f < |c.frames| ==>
      c.frames[f].socket < |c.sockets| && !c.sockets[c.frames[f].socket].CONNECTING?
  }

  /**
   * The call waited for the connection, and the request made for it on open was rejected, or waits
   * for a response on a connection that delivers no more. Or it still waits while the client will
   * close every connection as soon as it opens, and then no response to it is delivered.
   */
  ghost predicate Stranded(c: Client, p: int, whileClosing: bool) {
    && 0 <= p < |c.calls| && c.calls[p].linked
    && if p < |c.frames|
       then c.frames[p].outcome.Rejected?
            || (c.frames[p].outcome.Pending? && !Delivers(c, c.frames[p].socket, whileClosing))
       else c.closeOnOpen && !whileClosing
  }

  /** A step in which responses answer frames over the socket they were sent on, while it delivers. */
  predicate Genuine(c: Client, step: Step, whileClosing: bool) {
    step.Receive? ==>
      && Delivers(c, step.socket, whileClosing)
      && (0 <= step.id < |c.frames| ==> c.frames[step.id].socket == step.socket)
  }

  predicate GenuineRun(c: Client, steps: seq<Step>, whileClosing: bool)
    requires c.Valid()
  {
    steps == []
    || (GenuineRun(c, steps[..|steps| - 1], whileClosing)
        && Genuine(Run(c, steps[..|steps| - 1]), steps[|steps| - 1], whileClosing))
  }

  lemma {:induction false} RunSnoc(c: Client, steps: seq<Step>, step: Step)
    requires c.Valid()
    ensures Run(c, steps + [step]) == Take(Run(c, steps), step)
  {
    assert (steps + [step])[..|steps|] == steps;
  }

  /** New frames come last, on the current socket, and only if that is open. */
  ghost predicate Adds(before: seq<Frame>, after: seq<Frame>, current: nat, isOpen: bool) {
    && |before| <= |after| && after[..|before|] == before
    && (|before| < |after| ==> isOpen)
    && (forall f :: |before| <= f < |after| ==> after[f].socket == current)
  }

  lemma AddsTransitive(a: seq<Frame>, b: seq<Frame>, c: seq<Frame>, current: nat, isOpen: bool)
    requires Adds(a, b, current, isOpen) && Adds(b, c, current, isOpen)
    ensures Adds(a, c, current, isOpen)
  {
    assert c[..|a|] == c[..|b|][..|a|];
    assert forall f :: |a| <= f < |b| ==> c[f] == c[..|b|][f];
  }

  lemma SendOrWaitAdds(c: Client, call: nat)
    requires c.Valid() && call < |c.calls|
    ensures Adds(c.frames, c.SendOrWait(call).frames, c.current, c.IsOpen())
  {
  }

  lemma {:induction false} RetryOnCurrent(c: Client, queued: seq<nat>)
    requires c.Valid() && forall i :: 0 <= i < |queued| ==> queued[i] < |c.calls|
    ensures Adds(c.frames, c.Retry(queued).frames, c.current, c.IsOpen())
  {
    if queued != [] {
      var n := |queued| - 1;
      RetryOnCurrent(c, queued[..n]);
      var d := c.Retry(queued[..n]);
      SendOrWaitAdds(d, queued[n]);
      AddsTransitive(c.frames, d.frames, d.SendOrWait(queued[n]).frames, c.current, c.IsOpen());
    }
  }

  lemma OpenedFrames(c: Client)
    requires c.Valid()
    ensures var r := c.Opened();
      && r.frames == c.frames && r.current == c.current
      && |r.sockets| == |c.sockets| && r.closeOnOpen == c.closeOnOpen
  {
  }

  /** What an open event does to the frames. */
  lemma OpenOnCurrent(c: Client, k: nat)
    requires c.Valid() && k < |c.sockets|
    ensures var r := c.Open(k);
      && r.current == c.current && |r.sockets| == |c.sockets| && r.closeOnOpen == c.closeOnOpen
      && Adds(c.frames, r.frames, c.current, c.sockets[k := OPEN][c.current].OPEN?)
  {
    RetryOnCurrent(c.(sockets := c.sockets[k := OPEN], waiting := []), c.waiting);
    OpenedFrames(c.Retried(k));
  }

  /** Sockets never go back: one that is no longer connecting delivers only if it did before. */
  ghost predicate Ages(c: Client, d: Client) {
    && |c.sockets| <= |d.sockets|
    && forall k :: 0 <= k < |c.sockets| && !c.sockets[k].CONNECTING? ==>
         && !d.sockets[k].CONNECTING?
         && forall w :: Delivers(d, k, w) ==> Delivers(c, k, w)
  }

  lemma SocketsAge(c: Client, step: Step)
    requires Inv(c)
    ensures Ages(c, Take(c, step))
  {
    if Enabled(c, step) {
      match step
      case Receive(_, id, response) => MessageIsOwn(c, id, response);
      case _ =>
    }
  }

  lemma OpenFrameSockets(c: Client, k: nat)
    requires Inv(c) && FrameSockets(c) && k < |c.sockets| && c.sockets[k].CONNECTING?
    ensures FrameSockets(c.Open(k))
  {
    OpenOnCurrent(c, k);
    SocketsAge(c, SocketOpens(k));
    var r := c.Open(k);
    forall f | 0 <= f < |r.frames|
      ensures r.frames[f].socket < |r.sockets| && !r.sockets[r.frames[f].socket].CONNECTING?
    {
      if f < |c.frames| {
        assert r.frames[f] == r.frames[..|c.frames|][f] == c.frames[f];
      }
    }
  }

  lemma FrameSocketsStep(c: Client, step: Step)
    requires Inv(c) && FrameSockets(c)
    ensures FrameSockets(Take(c, step))
  {
    if Enabled(c, step) {
      match step
      case SocketOpens(k) => OpenFrameSockets(c, k);
      case Receive(_, id, response) =>
        SocketsAge(c, step);
        MessageSettles(c, id, response);
      case _ => SocketsAge(c, step);
    }
  }

  lemma {:induction false} ReachableSockets(steps: seq<Step>)
    ensures FrameSockets(Run(NewClient(), steps))
  {
    if steps != [] {
      var n := |steps| - 1;
      ReachableSockets(steps[..n]);
      Reachable(steps[..n]);
      FrameSocketsStep(Run(NewClient(), steps[..n]), steps[n]);
    }
  }

  /** A fresh connection sends every call that waits, and stays open unless it is to be closed. */
  lemma FreshConnectionSends(c: Client)
    requires Inv(c)
    ensures var k := |c.sockets|;
      var r := Take(Take(c, Reconnect), SocketOpens(k));
      && Inv(r) && r.calls == c.calls && |r.frames| == |c.calls| >= |c.frames|
      && (forall f :: |c.frames| <= f < |r.frames| ==> r.frames[f].outcome.Pending? && r.frames[f].socket == k)
      && Delivers(r, k, true) && (!c.closeOnOpen ==> Delivers(r, k, false))
  {
    var connected := Take(c, Reconnect);
    TakeKeeps(c, Reconnect);
    RetriedKeeps(connected, |c.sockets|);
    OpenedKeeps(connected.Retried(|c.sockets|));
    OpenOnCurrent(connected, |c.sockets|);
  }

  /** The steps by which a call that waits can be sent and then answered. */
  function Answered(c: Client, p: nat): seq<Step> {
    [Reconnect] + [SocketOpens(|c.sockets|)] + [Receive(|c.sockets|, p, Result(""))]
  }

  lemma {:induction false} OneStep(c: Client, x: Step)
    requires c.Valid()
    ensures Run(c, [x]) == Take(c, x)
  {
    assert [] + [x] == [x];
    RunSnoc(c, [], x);
  }

  lemma {:induction false} ThreeSteps(c: Client, x: Step, y: Step, z: Step)
    requires c.Valid()
    ensures Run(c, [x] + [y] + [z]) == Take(Take(Take(c, x), y), z)
  {
    OneStep(c, x);
    RunSnoc(c, [x], y);
    RunSnoc(c, [x] + [y], z);
  }

  lemma {:induction false} GenuineStep(c: Client, x: Step, whileClosing: bool)
    requires c.Valid() && Genuine(c, x, whileClosing)
    ensures GenuineRun(c, [x], whileClosing)
  {
    assert [x][..0] == [];
    assert GenuineRun(c, [x][..0], whileClosing) && Run(c, [x][..0]) == c;
  }

  lemma {:induction false} GenuineSnoc(c: Client, steps: seq<Step>, x: Step, whileClosing: bool)
    requires c.Valid() && GenuineRun(c, steps, whileClosing) && Genuine(Run(c, steps), x, whileClosing)
    ensures GenuineRun(c, steps + [x], whileClosing)
  {
    assert (steps + [x])[..|steps|] == steps;
  }

  /** Some continuation with genuine responses settles the promise. */
  ghost predicate CanSettle(c: Client, p: nat, whileClosing: bool)
    requires c.Valid()
  {
    exists steps :: SettledAfter(c, steps, p, whileClosing)
  }

  ghost predicate SettledAfter(c: Client, steps: seq<Step>, p: nat, whileClosing: bool)
    requires c.Valid()
  {
    && GenuineRun(c, steps, whileClosing)
    && p < |Run(c, steps).calls| && !Run(c, steps).calls[p].outcome.Pending?
  }

  lemma WaitingCanSettle(c: Client, p: nat, whileClosing: bool)
    requires Inv(c) && |c.frames| <= p < |c.calls| && (whileClosing || !c.closeOnOpen)
    ensures CanSettle(c, p, whileClosing)
  {
    var k := |c.sockets|;
    var open, receive := SocketOpens(k), Receive(k, p, Result(""));
    FreshConnectionSends(c);
    ResultResolves(Take(Take(c, Reconnect), open), k, p, "");
    ThreeSteps(c, Reconnect, open, receive);
    OneStep(c, Reconnect);
    RunSnoc(c, [Reconnect], open);
    GenuineStep(c, Reconnect, whileClosing);
    GenuineSnoc(c, [Reconnect], open, whileClosing);
    GenuineSnoc(c, [Reconnect] + [open], receive, whileClosing);
    assert SettledAfter(c, Answered(c, p), p, whileClosing);
  }

  /** A frame that waits settles by its timeout or by its response. */
  lemma SentCanSettle(c: Client, p: nat, whileClosing: bool)
    requires Inv(c) && FrameSockets(c) && p < |c.frames| && c.frames[p].outcome.Pending?
    requires c.calls[p].linked ==> Delivers(c, c.frames[p].socket, whileClosing)
    ensures CanSettle(c, p, whileClosing)
  {
    var step := if c.calls[p].linked then Receive(c.frames[p].socket, p, Result("")) else TimeoutFires(p);
    if c.calls[p].linked {
      ResultResolves(c, c.frames[p].socket, p, "");
    } else {
      TimeoutRejects(c, p);
      TimeoutSettles(c, p);
    }
    OneStep(c, step);
    GenuineStep(c, step, whileClosing);
    assert SettledAfter(c, [step], p, whileClosing);
  }

  /** A stranded call whose frame was sent: only its timeout can still touch the frame. */
  lemma SentStaysStranded(c: Client, step: Step, p: nat, whileClosing: bool)
    requires Inv(c) && FrameSockets(c) && p < |c.frames| && Stranded(c, p, whileClosing)
    requires Genuine(c, step, whileClosing)
    ensures Stranded(Take(c, step), p, whileClosing)
  {
    SettledOnlyByOwn(c, step);
    SocketsAge(c, step);
    if c.frames[p].outcome.Pending? && Settles(step) == p && Enabled(c, step) {
      TimeoutRejects(c, p);
    }
  }

  /** A waiting call of a client that has given up: if it is sent at all, its socket is closing. */
  lemma WaitingStaysStranded(c: Client, step: Step, p: nat)
    requires Inv(c) && |c.frames| <= p && Stranded(c, p, false)
    ensures Stranded(Take(c, step), p, false)
  {
    assert c.waiting != [] && !c.IsOpen();
    GivenUpStays(c, c, step);
    SettledOnlyByOwn(c, step);
    if Enabled(c, step) {
      match step
      case SocketOpens(k) =>
        OpenOnCurrent(c, k);
        RetriedKeeps(c, k);
        OpenedKeeps(c.Retried(k));
      case Receive(_, id, response) => MessageIsOwn(c, id, response);
      case _ =>
    }
  }

  lemma {:induction false} StrandedStays(c: Client, steps: seq<Step>, p: nat, whileClosing: bool)
    requires Inv(c) && FrameSockets(c) && Stranded(c, p, whileClosing) && GenuineRun(c, steps, whileClosing)
    ensures Inv(Run(c, steps)) && FrameSockets(Run(c, steps)) && Stranded(Run(c, steps), p, whileClosing)
  {
    if steps != [] {
      var n := |steps| - 1;
      StrandedStays(c, steps[..n], p, whileClosing);
      var d := Run(c, steps[..n]);
      TakeKeeps(d, steps[n]);
      FrameSocketsStep(d, steps[n]);
      if p < |d.frames| {
        SentStaysStranded(d, steps[n], p, whileClosing);
      } else {
        WaitingStaysStranded(d, steps[n], p);
      }
    }
  }

  /** The promise of a stranded call is pending. */
  lemma StrandedIsPending(c: Client, p: nat, whileClosing: bool)
    requires Inv(c) && Stranded(c, p, whileClosing)
    ensures c.calls[p].outcome.Pending?
  {
  }

  /**
   * In every state with the invariants, on either kind of socket: a promise is settled, or settles
   * in some continuation with genuine responses, exactly when its call is not stranded.
   */
  lemma CanSettleUnlessStranded(c: Client, p: nat, whileClosing: bool)
    requires Inv(c) && FrameSockets(c) && p < |c.calls|
    ensures CanSettle(c, p, whileClosing) <==> !Stranded(c, p, whileClosing)
  {
    if Stranded(c, p, whileClosing) {
      forall steps
        ensures !SettledAfter(c, steps, p, whileClosing)
      {
        if GenuineRun(c, steps, whileClosing) {
          StrandedStays(c, steps, p, whileClosing);
          StrandedIsPending(Run(c, steps), p, whileClosing);
        }
      }
    } else if p >= |c.frames| {
      WaitingCanSettle(c, p, whileClosing);
    } else if c.frames[p].outcome.Pending? {
      SentCanSettle(c, p, whileClosing);
    } else {
      assert SettledAfter(c, [], p, whileClosing);
    }
  }

  /**
   * Over all runs: a promise is settled, or settles in some continuation, exactly when it is not
   * stranded. Only calls that had to wait for the connection can be.
   */
  lemma {:induction false} SettlesUnlessStranded(steps: seq<Step>, p: nat, whileClosing: bool)
    requires p < |Run(NewClient(), steps).calls|
    ensures var c := Run(NewClient(), steps);
      CanSettle(c, p, whileClosing) <==> !Stranded(c, p, whileClosing)
  {
    Reachable(steps);
    ReachableSockets(steps);
    CanSettleUnlessStranded(Run(NewClient(), steps), p, whileClosing);
  }

  lemma FirstCallWaits(request: Request)
    ensures var c := Take(NewClient(), MakeCall(request));
      && Inv(c) && |c.sockets| == 1 && c.current == 0 && c.sockets[0].CONNECTING?
      && c.frames == [] && c.calls == [Call(request, true, Pending)] && !c.closeOnOpen
  {
    InitInv();
    TakeKeeps(NewClient(), MakeCall(request));
  }

  lemma FirstCallIsSent(c: Client, request: Request)
    requires Inv(c) && |c.sockets| == 1 && c.current == 0 && c.sockets[0].CONNECTING?
    requires c.frames == [] && c.calls == [Call(request, true, Pending)] && !c.closeOnOpen
    ensures var d := Take(c, SocketOpens(0));
      && Inv(d) && d.sockets == [OPEN] && d.current == 0 && d.calls == c.calls
      && |d.frames| == 1 && d.frames[0].outcome.Pending? && d.frames[0].socket == 0
  {
    TakeKeeps(c, SocketOpens(0));
    RetriedKeeps(c, 0);
    OpenedKeeps(c.Retried(0));
    OpenOnCurrent(c, 0);
  }

  /** Frames are not sent again: an unanswered call that had to wait is stranded when its socket closes. */
  lemma CloseStrandsUnanswered(c: Client, f: nat, code: nat, whileClosing: bool)
    requires Inv(c) && f < |c.frames| && c.frames[f].outcome.Pending?
    requires c.frames[f].socket < |c.sockets| && !c.sockets[c.frames[f].socket].CLOSED?
    ensures var d := Take(c, SocketCloses(c.frames[f].socket, code));
      d.frames == c.frames && d.calls == c.calls && (Stranded(d, f, whileClosing) <==> c.calls[f].linked)
  {
    var d := Take(c, SocketCloses(c.frames[f].socket, code));
    assert d.frames == c.frames && d.calls == c.calls;
    assert d.sockets[c.frames[f].socket].CLOSED?;
  }

  /** Such promises exist: a call made before the connection opens, whose frame gets an error response. */
  lemma RejectedAfterWaitingIsStranded(request: Request, error: string, whileClosing: bool)
    ensures var steps := [MakeCall(request)] + [SocketOpens(0)] + [Receive(0, 0, Failure(error))];
      Stranded(Run(NewClient(), steps), 0, whileClosing)
  {
    var waiting := Take(NewClient(), MakeCall(request));
    var sent := Take(waiting, SocketOpens(0));
    FirstCallWaits(request);
    FirstCallIsSent(waiting, request);
    FailureRejects(sent, 0, 0, error);
    SettledOnlyByOwn(sent, Receive(0, 0, Failure(error)));
    ThreeSteps(NewClient(), MakeCall(request), SocketOpens(0), Receive(0, 0, Failure(error)));
  }

  /** The same call, sent on a connection that closes before the response, with whatever code. */
  lemma ClosedBeforeResponseIsStranded(request: Request, code: nat, whileClosing: bool)
    ensures var steps := [MakeCall(request)] + [SocketOpens(0)] + [SocketCloses(0, code)];
      Stranded(Run(NewClient(), steps), 0, whileClosing)
  {
    var waiting := Take(NewClient(), MakeCall(request));
    FirstCallWaits(request);
    FirstCallIsSent(waiting, request);
    CloseStrandsUnanswered(Take(waiting, SocketOpens(0)), 0, code, whileClosing);
    ThreeSteps(NewClient(), MakeCall(request), SocketOpens(0), SocketCloses(0, code));
  }

  /** The same call, when the client is disconnected before the connection opens, in a browser. */
  lemma DisconnectedBeforeOpenIsStranded(request: Request)
    ensures Stranded(Run(NewClient(), [MakeCall(request)] + [Disconnect]), 0, false)
  {
    FirstCallWaits(request);
    OneStep(NewClient(), MakeCall(request));
    RunSnoc(NewClient(), [MakeCall(request)], Disconnect);
  }

  /**
   * After an abnormal close the client is connecting again, and when that connection opens
   * everything that waits is sent. A normal close makes no connection and sends nothing.
   */
  lemma AbnormalCloseRecovers(c: Client, k: nat, code: nat)
    requires Inv(c) && k < |c.sockets| && !c.sockets[k].CLOSED?
    ensures var d := Take(c, SocketCloses(k, code));
      && d.calls == c.calls && d.frames == c.frames && d.waiting == c.waiting
      && d.sockets[k].CLOSED?
      && (code != 1000 ==>
            && d.sockets[d.current].CONNECTING? && d.current == |c.sockets|
            && |Take(d, SocketOpens(d.current)).frames| == |c.calls|)
      && (code == 1000 ==> d == c.(sockets := c.sockets[k := CLOSED]))
  {
    var d := Take(c, SocketCloses(k, code));
    TakeKeeps(c, SocketCloses(k, code));
    if code != NORMAL {
      RetriedKeeps(d, d.current);
      OpenedKeeps(d.Retried(d.current));
    }
  }

  // ---------------------------------------------------------------------------
  // The trouble and ok signals
  // ---------------------------------------------------------------------------

  /**
   * The errors of a run since the last open that was not cut short: an open event is cut short when
   * some disconnect before it had hit a connecting socket.
   */
  ghost function ErrorsSinceOpen(steps: seq<Step>): nat {
    if steps == [] then 0
    else
      var before, step := steps[..|steps| - 1], steps[|steps| - 1];
      if step.SocketFails? then ErrorsSinceOpen(before) + 1
      else if step.SocketOpens? && Enabled(Run(NewClient(), before), step) && !CutShort(before) then 0
      else ErrorsSinceOpen(before)
  }

  ghost predicate Troubled(steps: seq<Step>) {
    ErrorsSinceOpen(steps) >= 2
  }

  /** One word for every change between trouble and no trouble. */
  ghost function StatusTrace(steps: seq<Step>): seq<Signal> {
    if steps == [] then []
    else
      var before := steps[..|steps| - 1];
      StatusTrace(before)
      + if Troubled(before) == Troubled(steps) then [] else [if Troubled(steps) then Trouble else Ok]
  }

  lemma ErrorsStep(c: Client, step: Step)
    requires Inv(c)
    ensures var d := Take(c, step);
      && d.consecutiveErrors ==
           (if step.SocketFails? then c.consecutiveErrors + 1
            else if step.SocketOpens? && Enabled(c, step) && !c.closeOnOpen then 0
            else c.consecutiveErrors)
      && d.signals == c.signals +
           (if (c.consecutiveErrors >= 2) == (d.consecutiveErrors >= 2) then []
            else [if d.consecutiveErrors >= 2 then Trouble else Ok])
  {
    if Enabled(c, step) {
      match step
      case SocketOpens(k) => RetriedKeeps(c, k);
      case Receive(_, id, response) => MessageIsOwn(c, id, response);
      case _ =>
    }
  }

  /** The count and the trace of the client are those of the run. */
  lemma {:induction false} SignalsFollowRun(steps: seq<Step>)
    ensures var c := Run(NewClient(), steps);
      c.consecutiveErrors == ErrorsSinceOpen(steps) && c.signals == StatusTrace(steps)
  {
    if steps != [] {
      var n := |steps| - 1;
      SignalsFollowRun(steps[..n]);
      Reachable(steps[..n]);
      CloseOnOpenExactlyWhenCutShort(steps[..n]);
      ErrorsStep(Run(NewClient(), steps[..n]), steps[n]);
    }
  }

  /**
   * The trace of every run has one word for every change between fewer than two errors and two or
   * more since the last open that was not cut short; so it alternates strictly, starting with
   * trouble, and ends with trouble exactly when there have been two or more such errors.
   */
  lemma {:induction false} SignalsAlternate(steps: seq<Step>)
    ensures var c := Run(NewClient(), steps);
      && c.signals == StatusTrace(steps)
      && (forall i :: 0 <= i < |c.signals| ==> c.signals[i] == if i % 2 == 0 then Trouble else Ok)
      && ((c.signals != [] && c.signals[|c.signals| - 1] == Trouble) <==> ErrorsSinceOpen(steps) >= 2)
  {
    Reachable(steps);
    SignalsFollowRun(steps);
    LastSignal(Run(NewClient(), steps));
  }

  lemma LastSignal(c: Client)
    requires SignalsInv(c)
    ensures (c.signals != [] && c.signals[|c.signals| - 1] == Trouble) <==> c.consecutiveErrors >= 2
  {
  }

  /** The client will close any connection that opens, and has none. */
  ghost predicate GivenUp(c: Client, r: Client)
  {
    && r.Valid() && r.closeOnOpen && !r.IsOpen()
    && c.consecutiveErrors <= r.consecutiveErrors
    && (r.signals == c.signals
        || (r.signals == c.signals + [Trouble] && r.consecutiveErrors >= 2 > c.consecutiveErrors))
  }

  lemma GivenUpStays(c: Client, r: Client, step: Step)
    requires Inv(r) && GivenUp(c, r)
    ensures GivenUp(c, Take(r, step))
  {
    if Enabled(r, step) {
      match step
      case SocketOpens(k) => RetriedKeeps(r, k);
      case Receive(_, id, response) => MessageIsOwn(r, id, response);
      case _ =>
    }
  }

  lemma {:induction false} GivenUpForGood(c: Client, steps: seq<Step>)
    requires Inv(c) && c.closeOnOpen && !c.IsOpen()
    ensures GivenUp(c, Run(c, steps))
  {
    if steps != [] {
      var n := |steps| - 1;
      GivenUpForGood(c, steps[..n]);
      RunKeeps(c, steps[..n]);
      GivenUpStays(c, Run(c, steps[..n]), steps[n]);
    }
  }

  /**
   * closeOnOpen is never reset. Once a disconnect has hit a connecting socket, the current socket
   * is not open at the end of any later step, also after connect(), and no ok is ever signalled:
   * the trace grows by at most one trouble.
   */
  lemma {:induction false} DisconnectWhileConnectingIsForever(c: Client, steps: seq<Step>)
    requires Inv(c) && c.sockets[c.current].CONNECTING?
    ensures GivenUp(c, Run(Take(c, Disconnect), steps))
  {
    TakeKeeps(c, Disconnect);
    GivenUpForGood(Take(c, Disconnect), steps);
  }

  /**
   * disconnect() on an open connection begins to close it and does nothing else; while one is being
   * established it only remembers to close it; otherwise there is nothing to do.
   */
  lemma DisconnectExactly(c: Client)
    requires Inv(c)
    ensures Take(c, Disconnect) ==
      match c.sockets[c.current]
      case OPEN => c.(sockets := c.sockets[c.current := CLOSING])
      case CONNECTING => c.(closeOnOpen := true)
      case _ => c
    ensures !Take(c, Disconnect).IsOpen()
  {
  }

  /**
   * An open event after such a disconnect closes whatever is the current connection by then, be it
   * open or still being established; any other open event closes nothing.
   */
  lemma OpenEventExactly(c: Client, k: nat)
    requires Inv(c) && Enabled(c, SocketOpens(k))
    ensures var after := c.sockets[k := OPEN];
      Take(c, SocketOpens(k)).sockets ==
        if c.closeOnOpen && (after[c.current].OPEN? || after[c.current].CONNECTING?)
        then after[c.current := CLOSING] else after
  {
    RetriedKeeps(c, k);
  }

  /** While no socket opens, no frame is sent, and every new call waits behind the others. */
  lemma {:induction false} CallsWaitForOpen(c: Client, steps: seq<Step>)
    requires Inv(c) && !c.IsOpen() && forall i :: 0 <= i < |steps| ==> !steps[i].SocketOpens?
    ensures var d := Run(c, steps);
      && !d.IsOpen() && |d.frames| == |c.frames| && |d.waiting| == |d.calls| - |c.frames|
      && (forall j :: 0 <= j < |d.waiting| ==> d.waiting[j] == |c.frames| + j)
  {
    RunKeeps(c, steps);
    if steps != [] {
      var n := |steps| - 1;
      CallsWaitForOpen(c, steps[..n]);
      RunKeeps(c, steps[..n]);
      ClosedStep(Run(c, steps[..n]), steps[n]);
    }
  }

  lemma ClosedStep(c: Client, step: Step)
    requires Inv(c) && !c.IsOpen() && !step.SocketOpens?
    ensures !Take(c, step).IsOpen() && |Take(c, step).frames| == |c.frames|
  {
    if step.Receive? && Enabled(c, step) {
      MessageIsOwn(c, step.id, step.response);
    }
  }

  /** Some continuation ends with the current socket open. */
  ghost predicate CanOpen(c: Client)
    requires c.Valid()
  {
    exists steps :: OpenAfter(c, steps)
  }

  ghost predicate OpenAfter(c: Client, steps: seq<Step>)
    requires c.Valid()
  {
    Run(c, steps).IsOpen()
  }

  lemma FreshConnectionOpens(c: Client)
    requires Inv(c) && !c.closeOnOpen
    ensures OpenAfter(c, [Reconnect] + [SocketOpens(|c.sockets|)])
  {
    var connected := Take(c, Reconnect);
    OneStep(c, Reconnect);
    RunSnoc(c, [Reconnect], SocketOpens(|c.sockets|));
    TakeKeeps(c, Reconnect);
    RetriedKeeps(connected, |c.sockets|);
  }

  /** A client without an open socket can get one exactly when closeOnOpen is not set. */
  lemma OpensExactlyUnlessGivenUp(c: Client)
    requires Inv(c) && !c.IsOpen()
    ensures CanOpen(c) <==> !c.closeOnOpen
  {
    if c.closeOnOpen {
      forall steps
        ensures !OpenAfter(c, steps)
      {
        GivenUpForGood(c, steps);
      }
    } else {
      FreshConnectionOpens(c);
    }
  }

  /** Step i of the run is a disconnect that finds the current socket connecting. */
  ghost predicate CutsShort(steps: seq<Step>, i: int) {
    && 0 <= i < |steps| && steps[i].Disconnect?
    && var c := Run(NewClient(), steps[..i]); c.sockets[c.current].CONNECTING?
  }

  /** Some disconnect of the run has hit a connecting socket. */
  ghost predicate CutShort(steps: seq<Step>) {
    exists i :: CutsShort(steps, i)
  }

  lemma CutShortSnoc(steps: seq<Step>)
    requires steps != []
    ensures CutShort(steps) <==> CutShort(steps[..|steps| - 1]) || CutsShort(steps, |steps| - 1)
  {
    var before := steps[..|steps| - 1];
    forall i | 0 <= i < |before|
      ensures CutsShort(before, i) <==> CutsShort(steps, i)
    {
      assert before[..i] == steps[..i];
    }
  }

  lemma CloseOnOpenStep(c: Client, step: Step)
    requires Inv(c) && (c.closeOnOpen ==> !c.IsOpen())
    ensures Take(c, step).closeOnOpen <==>
      c.closeOnOpen || (step.Disconnect? && c.sockets[c.current].CONNECTING?)
    ensures Take(c, step).closeOnOpen ==> !Take(c, step).IsOpen()
  {
    if c.closeOnOpen {
      GivenUpStays(c, c, step);
    } else if Enabled(c, step) {
      match step
      case SocketOpens(k) => RetriedKeeps(c, k);
      case Receive(_, id, response) => MessageIsOwn(c, id, response);
      case _ =>
    }
  }

  lemma {:induction false} CloseOnOpenExactlyWhenCutShort(steps: seq<Step>)
    ensures var c := Run(NewClient(), steps);
      (c.closeOnOpen <==> CutShort(steps)) && (c.closeOnOpen ==> !c.IsOpen())
  {
    if steps != [] {
      var n := |steps| - 1;
      CloseOnOpenExactlyWhenCutShort(steps[..n]);
      Reachable(steps[..n]);
      CloseOnOpenStep(Run(NewClient(), steps[..n]), steps[n]);
      CutShortSnoc(steps);
    }
  }

  /**
   * Over all runs: the connection can be open now or at the end of some continuation exactly when
   * no disconnect of the run has hit a connecting socket, whatever connect() calls there were.
   */
  lemma {:induction false} OpensExactlyUnlessCutShort(steps: seq<Step>)
    ensures CanOpen(Run(NewClient(), steps)) <==> !CutShort(steps)
  {
    var c := Run(NewClient(), steps);
    Reachable(steps);
    CloseOnOpenExactlyWhenCutShort(steps);
    if c.IsOpen() {
      assert OpenAfter(c, []);
    } else {
      OpensExactlyUnlessGivenUp(c);
    }
  }

  /** The shortest such run: a disconnect before the first connection is up. */
  lemma FirstDisconnectCutsShort()
    ensures !CanOpen(Run(NewClient(), [Disconnect]))
  {
    assert [Disconnect][..0] == [];
    assert Run(NewClient(), [Disconnect][..0]) == NewClient();
    assert CutsShort([Disconnect], 0);
    OpensExactlyUnlessCutShort([Disconnect]);
  }

  // ---------------------------------------------------------------------------
  // The program's own form
  // ---------------------------------------------------------------------------

  lemma RetryNext(c: Client, queued: seq<nat>, i: nat)
    requires c.Valid() && i < |queued| && forall k :: 0 <= k < |queued| ==> queued[k] < |c.calls|
    ensures c.Retry(queued[..i + 1]) == c.Retry(queued[..i]).SendOrWait(queued[i])
  {
    assert queued[..i + 1][..i] == queued[..i];
  }

  lemma {:induction false} RespondNext(c: Client, listening: seq<nat>, i: nat, response: Response)
    requires c.Valid() && i < |listening| && forall k :: 0 <= k < |listening| ==> listening[k] < |c.frames|
    ensures var d := c.Respond(listening[..i], response);
      c.Respond(listening[..i + 1], response)
      == d.(timers := d.timers - {listening[i]}).SettleFrame(listening[i], Meaning(response))
  {
    assert listening[..i + 1][..i] == listening[..i];
  }

  class JsonRpcWebSocket {
    var sockets: seq<ReadyState>
    var websocket: nat
    var requestId: nat
    var consecutiveErrors: nat
    var closeOnOpen: bool
    var calls: seq<Call>
    var lifecycle: seq<nat>
    var frames: seq<Frame>
    var responses: map<int, seq<nat>>
    var timers: set<nat>
    var connectionState: seq<Signal>

    ghost function Model(): Client
      reads this
    {
      Client(sockets, websocket, requestId, consecutiveErrors, closeOnOpen, calls, lifecycle, frames, responses, timers,
             connectionState)
    }

    constructor ()
      ensures Model() == NewClient()
    {
      sockets, websocket := [CONNECTING], 0;
      requestId, consecutiveErrors, closeOnOpen := 0, 0, false;
      calls, lifecycle, frames, responses, timers, connectionState := [], [], [], map[], {}, [];
    }

    method NextId() returns (id: nat)
      modifies this`requestId
      ensures id == old(requestId) && requestId == id + 1
    {
      requestId := requestId + 1;
      return requestId - 1;
    }

    /** Makes the request of a call: queues it again, or sends a frame and awaits the response. */
    method RequestFor(call: nat)
      requires Model().Valid() && call < |calls|
      modifies this
      ensures Model() == old(Model()).SendOrWait(call)
    {
      if sockets[websocket] != OPEN {
        calls := calls[call := calls[call].(linked := true)];
        lifecycle := lifecycle + [call];
        return;
      }
      var id := NextId();
      timers := timers + {|frames|};
      responses := responses[id := Listeners(responses, id) + [|frames|]];
      frames := frames + [Frame(id, calls[call].request, websocket, call, Pending)];
    }

    method Request(request: Request)
      requires Model().Valid()
      modifies this
      ensures Model() == old(Model()).MakeRequest(request)
    {
      calls := calls + [Call(request, false, Pending)];
      RequestFor(|calls| - 1);
    }

    /** Emits the open event: its once-listeners run in order and may queue themselves again. */
    method EmitOpen()
      requires Model().Valid()
      modifies this
      ensures Model() == old(Model().(waiting := [])).Retry(old(lifecycle))
    {
      var queued := lifecycle;
      lifecycle := [];
      ghost var before := Model();
      for i := 0 to |queued|
        invariant before.Valid() && Model() == before.Retry(queued[..i])
      {
        RetryNext(before, queued, i);
        RequestFor(queued[i]);
      }
      assert queued[..|queued|] == queued;
    }

    /** websocket.close on the current socket. */
    method CloseWebSocket()
      requires Model().Valid()
      modifies this`sockets
      ensures Model() == old(Model()).CloseCurrent()
    {
      if sockets[websocket].CONNECTING? || sockets[websocket].OPEN? {
        sockets := sockets[websocket := CLOSING];
      }
    }

    method OnOpen(k: nat)
      requires Model().Valid() && k < |sockets|
      modifies this
      ensures Model() == old(Model()).Open(k)
    {
      sockets := sockets[k := OPEN];
      EmitOpen();
      if closeOnOpen {
        CloseWebSocket();
        return;
      }
      if consecutiveErrors >= ERROR_FORWARD_THRESHOLD {
        connectionState := connectionState + [Ok];
      }
      consecutiveErrors := 0;
    }

    method OnError()
      requires Model().Valid()
      modifies this
      ensures Model() == old(Model()).Error()
    {
      consecutiveErrors := consecutiveErrors + 1;
      if consecutiveErrors == ERROR_FORWARD_THRESHOLD {
        connectionState := connectionState + [Trouble];
      }
    }

    method Connect()
      requires Model().Valid()
      modifies this
      ensures Model() == old(Model()).Connect()
    {
      sockets := sockets + [CONNECTING];
      websocket := |sockets| - 1;
    }

    method OnClose(k: nat, code: nat)
      requires Model().Valid() && k < |sockets|
      modifies this
      ensures Model() == old(Model()).Close(k, code)
    {
      sockets := sockets[k := CLOSED];
      if code != NORMAL {
        Connect();
      }
    }

    method Disconnect()
      requires Model().Valid()
      modifies this
      ensures Model() == old(Model()).Disconnect()
    {
      if sockets[websocket] == OPEN {
        CloseWebSocket();
      } else if sockets[websocket] == CONNECTING {
        closeOnOpen := true;
      }
    }

    /** resolve or reject of a frame's own promise, and of the promise of its call behind it. */
    method SettlePromise(f: nat, o: Outcome)
      requires Model().Valid() && f < |frames|
      modifies this
      ensures Model() == old(Model()).SettleFrame(f, o)
    {
      var settled := Settle(frames[f].outcome, o);
      var call := frames[f].call;
      frames := frames[f := frames[f].(outcome := settled)];
      if !calls[call].linked || settled.Resolved? {
        calls := calls[call := calls[call].(outcome := Settle(calls[call].outcome, settled))];
      } else {
        assert calls[call := calls[call].(outcome := calls[call].outcome)] == calls;
      }
    }

    /** The response listener of frame f: clears its timeout and settles its promise. */
    method ResponseListener(f: nat, response: Response)
      requires Model().Valid() && f < |frames|
      modifies this
      ensures Model() == old(Model().(timers := timers - {f})).SettleFrame(f, Meaning(response))
    {
      timers := timers - {f};
      SettlePromise(f, Meaning(response));
    }

    /** Emits a response on the topic of its id. */
    method OnMessage(id: int, response: Response)
      requires Model().Valid()
      modifies this
      ensures Model() == old(Model()).Message(id, response)
    {
      var listening := Listeners(responses, id);
      responses := responses - {id};
      ghost var before := Model();
      for i := 0 to |listening|
        invariant before.Valid() && Model() == before.Respond(listening[..i], response)
      {
        RespondNext(before, listening, i, response);
        ResponseListener(listening[i], response);
      }
      assert listening[..|listening|] == listening;
    }

    method OnTimeout(f: nat)
      requires Model().Valid() && f < |frames|
      modifies this
      ensures Model() == old(Model()).Timeout(f)
    {
      timers := timers - {f};
      SettlePromise(f, Rejected(TIMEOUT));
    }
  }
}
