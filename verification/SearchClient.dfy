/**
 Correlating requests to the search service with its responses
 (lib/src/oef_search_client.cpp, lib/include/oef_search_client.hpp, lib/include/msg_handle.hpp,
 and the continuations in lib/src/agent_session.cpp).

 Requests are numbered in the order they are made; the number stands for the continuation.
 Sends complete on any thread, while one serial loop takes a response, gets its handle,
 erases it and invokes the continuation. Each of those is a step of its own, because the
 table is locked for each separately; a run is any list of steps.
 */
module SearchClient {
  import opened Common
  import opened MessageIds

  // ---- Requests and responses -----------------------------------------------------------

  datatype Kind =
    | RegisterDescription | UnregisterDescription
    | RegisterService | UnregisterService
    | SearchAgents | SearchServices | SearchServicesWide

  datatype Request = Request(agent: string, msgId: bv32, kind: Kind)

  datatype AgentInfo = AgentInfo(key: Buffer, score: real)

  datatype Item = Item(key: Buffer, ip: string, port: nat, info: string, distance: real,
                       agents: seq<AgentInfo>)

  /** The hash of agent names, and how a search response parses. */
  datatype Environment = Environment(hash: string -> bv64, decode: Buffer -> seq<Item>)

  /** A key of the table of handles, a `uint32_t`. */
  datatype Id = Id(bits: bv32)

  function Key(env: Environment, q: Request): Id {
    Id(TableId(env.hash(q.agent), q.msgId))
  }

  /** Two requests share a key exactly when their message ids make up for their agents' hashes. */
  lemma KeysCollide(env: Environment, a: Request, b: Request)
    ensures Key(env, a) == Key(env, b) <==>
            Xor(Low(env.hash(a.agent)), Low(env.hash(b.agent))) == Twice(Xor(a.msgId, b.msgId))
  {
    TwoAgentsCollide(env.hash(a.agent), env.hash(b.agent), a.msgId, b.msgId);
    hide Xor, Low, Twice, TableId;
  }

  /** The key a response is looked up under. */
  function ResponseId(headerId: bv64): Id {
    Id(ResponseKey(headerId))
  }

  /** The tag a request's handle is saved under. */
  function Tag(k: Kind): string {
    match k
    case RegisterDescription => "update"
    case RegisterService => "update"
    case UnregisterDescription => "remove"
    case UnregisterService => "remove"
    case SearchAgents => "search-local"
    case SearchServices => "search-local"
    case SearchServicesWide => "search-wide"
  }

  /** `owner` is the request whose continuation the handle holds. */
  datatype Handle = Handle(operation: string, owner: Option<nat>)

  /** The handle `msg_handle_get` makes up when there is none; its continuation only logs. */
  const NO_HANDLE := Handle("", None)

  datatype Message = Message(headerId: bv64, success: bool, payload: Option<Buffer>)

  datatype Answer = Nothing | Agents(keys: seq<Buffer>) | AgentsWide(items: seq<Item>)

  /** What a continuation is invoked with. */
  datatype Outcome = Outcome(failed: bool, answer: Answer)

  function KeysOf(agents: seq<AgentInfo>): seq<Buffer> {
    if agents == [] then [] else [agents[0].key] + KeysOf(agents[1..])
  }

  function AllKeys(items: seq<Item>): seq<Buffer> {
    if items == [] then [] else KeysOf(items[0].agents) + AllKeys(items[1..])
  }

  lemma {:induction false} KeysOfMeaning(agents: seq<AgentInfo>)
    ensures |KeysOf(agents)| == |agents|
    ensures forall k | 0 <= k < |agents| :: KeysOf(agents)[k] == agents[k].key
  {
    if agents != [] { KeysOfMeaning(agents[1..]); }
  }

  /** The keys of the items come one item after the other. */
  lemma {:induction false} AllKeysAppend(a: seq<Item>, b: seq<Item>)
    ensures AllKeys(a + b) == AllKeys(a) + AllKeys(b)
  {
    hide KeysOf;
    if a == [] {
      assert a + b == b;
    } else {
      assert (a + b)[1..] == a[1..] + b;
      AllKeysAppend(a[1..], b);
      assert KeysOf(a[0].agents) + (AllKeys(a[1..]) + AllKeys(b))
          == (KeysOf(a[0].agents) + AllKeys(a[1..])) + AllKeys(b);
    }
  }

  lemma AllKeysOne(item: Item)
    ensures AllKeys([item]) == KeysOf(item.agents)
  {
    assert [item][1..] == [];
  }

  function OutcomeOf(env: Environment, operation: string, m: Message): Outcome {
    if m.payload.None? then Outcome(!m.success, Nothing)
    else if operation == "update" || operation == "remove" then Outcome(!m.success, Nothing)
    else if operation == "search-local" then
      Outcome(!m.success, Agents(AllKeys(env.decode(m.payload.value))))
    else if operation == "search-wide" then
      Outcome(!m.success, AgentsWide(env.decode(m.payload.value)))
    else Outcome(true, Nothing)
  }

  // ---- The state and its steps ----------------------------------------------------------

  /** An invocation of a continuation; `message` is the response, absent after a failed send. */
  datatype Invocation = Invocation(request: nat, message: Option<Message>, outcome: Outcome)

  /** Where the response loop stands. */
  datatype Loop =
    | Waiting
    | Arrived(m: Message)
    | Fetched(m: Message, h: Handle)
    | Erased(m: Message, h: Handle)
    | Stopped

  datatype State = State(
    requests: seq<Request>,
    sending: set<nat>,
    handles: map<Id, Handle>,
    loop: Loop,
    log: seq<Invocation>)

  const START := State([], {}, map[], Waiting, [])

  datatype Event =
    | Submit(q: Request)
    | SendDone(r: nat, ok: bool)
    | Receive(m: Message)
    | ReceiveFails
    | Get
    | Erase
    | Invoke

  function Save(handles: map<Id, Handle>, key: Id, h: Handle): map<Id, Handle> {
    if key in handles then handles else handles[key := h]
  }

  function Lookup(handles: map<Id, Handle>, key: Id): Handle {
    if key in handles then handles[key] else NO_HANDLE
  }

  /** An event that is not possible in a state changes nothing. */
  function Step(env: Environment, s: State, e: Event): State {
    match e
    case Submit(q) => s.(requests := s.requests + [q], sending := s.sending + {|s.requests|})
    case SendDone(r, ok) =>
      if r !in s.sending || r >= |s.requests| then s
      else if ok then
        var q := s.requests[r];
        s.(sending := s.sending - {r},
           handles := Save(s.handles, Key(env, q), Handle(Tag(q.kind), Some(r))))
      else
        s.(sending := s.sending - {r},
           log := s.log + [Invocation(r, None, Outcome(true, Nothing))])
    case Receive(m) => if s.loop.Waiting? then s.(loop := Arrived(m)) else s
    case ReceiveFails => if s.loop.Waiting? then s.(loop := Stopped) else s
    case Get =>
      if s.loop.Arrived? then
        s.(loop := Fetched(s.loop.m, Lookup(s.handles, ResponseId(s.loop.m.headerId))))
      else s
    case Erase =>
      if s.loop.Fetched? then
        s.(loop := Erased(s.loop.m, s.loop.h), handles := s.handles - {ResponseId(s.loop.m.headerId)})
      else s
    case Invoke =>
      if s.loop.Erased? then s.(loop := Waiting, log := s.log + Invoked(env, s.loop.m, s.loop.h)) else s
  }

  function Invoked(env: Environment, m: Message, h: Handle): seq<Invocation> {
    if h.owner.Some? then [Invocation(h.owner.value, Some(m), OutcomeOf(env, h.operation, m))] else []
  }

  function Run(env: Environment, s: State, es: seq<Event>): State
    decreases |es|
  {
    if es == [] then s else Run(env, Step(env, s, es[0]), es[1..])
  }

  // ---- The client -----------------------------------------------------------------------

  class OefSearchClient {
    const env: Environment
    var handles: map<Id, Handle>
    // What the sockets and the captured continuations know:
    ghost var requests: seq<Request>
    ghost var sending: set<nat>
    ghost var loop: Loop
    ghost var log: seq<Invocation>

    ghost function Abs(): State
      reads this
    {
      State(requests, sending, handles, loop, log)
    }

    constructor (environment: Environment)
      ensures Abs() == START && env == environment
    {
      env := environment;
      handles := map[];
      requests, sending, loop, log := [], {}, Waiting, [];
    }

    /** `msg_handle_save`: refuses a key that is taken. */
    method MsgHandleSave(key: Id, h: Handle) returns (saved: bool)
      modifies this`handles
      ensures saved <==> key !in old(handles)
      ensures handles == Save(old(handles), key, h)
    {
      if key in handles {
        return false;
      }
      handles := handles[key := h];
      return true;
    }

    method MsgHandleErase(key: Id) returns (erased: bool)
      modifies this`handles
      ensures erased <==> key in old(handles)
      ensures handles == old(handles) - {key}
    {
      erased := key in handles;
      handles := handles - {key};
    }

    method MsgHandleGet(key: Id) returns (h: Handle)
      ensures h == Lookup(handles, key)
    {
      if key in handles {
        return handles[key];
      }
      return NO_HANDLE;
    }

    /** `register_service`, `search_service` and their like: the header of the request sent. */
    method Send(q: Request) returns (headerId: bv64)
      modifies this`requests, this`sending
      ensures Abs() == Step(env, old(Abs()), Submit(q))
      ensures ResponseId(headerId) == Key(env, q)
    {
      var key := Key(env, q);
      headerId := HeaderId(key.bits);
      KeyRoundTrip(key.bits);
      sending := sending + {|requests|};
      requests := requests + [q];
    }

    /** The completion handler given to `send_`. */
    method Sent(r: nat, q: Request, ok: bool)
      requires r in sending && r < |requests| && q == requests[r]
      modifies this`sending, this`handles, this`log
      ensures Abs() == Step(env, old(Abs()), SendDone(r, ok))
    {
      sending := sending - {r};
      if ok {
        var _ := MsgHandleSave(Key(env, q), Handle(Tag(q.kind), Some(r)));
      } else {
        log := log + [Invocation(r, None, Outcome(true, Nothing))];
      }
    }

    /** `process_message_`, first lock: the handle of a response. */
    method GetHandle(m: Message) returns (h: Handle)
      requires loop == Arrived(m)
      modifies this`loop
      ensures Abs() == Step(env, old(Abs()), Get) && loop == Fetched(m, h)
    {
      h := MsgHandleGet(ResponseId(m.headerId));
      loop := Fetched(m, h);
    }

    /** Second lock: the handle goes. */
    method EraseHandle(m: Message, ghost h: Handle)
      requires loop == Fetched(m, h)
      modifies this`loop, this`handles
      ensures Abs() == Step(env, old(Abs()), Erase) && loop == Erased(m, h)
    {
      var _ := MsgHandleErase(ResponseId(m.headerId));
      loop := Erased(m, h);
    }

    /** The rest: every path invokes the continuation once. */
    method InvokeContinuation(m: Message, h: Handle)
      requires loop == Erased(m, h)
      modifies this`loop, this`log
      ensures Abs() == Step(env, old(Abs()), Invoke)
    {
      hide OutcomeOf;
      var outcome := MakeOutcome(env, h.operation, m);
      log := log + if h.owner.Some? then [Invocation(h.owner.value, Some(m), outcome)] else [];
      loop := Waiting;
    }

    /** `process_message_` when nothing comes between its steps. */
    method ProcessMessage(m: Message)
      requires loop == Arrived(m)
      modifies this`loop, this`handles, this`log
      ensures Abs() == Run(env, old(Abs()), [Get, Erase, Invoke])
    {
      var h := GetHandle(m);
      EraseHandle(m, h);
      InvokeContinuation(m, h);
      RunThree(env, old(Abs()), Get, Erase, Invoke);
    }
  }

  lemma RunThree(env: Environment, s: State, a: Event, b: Event, c: Event)
    ensures Run(env, s, [a, b, c]) == Step(env, Step(env, Step(env, s, a), b), c)
  {
    hide Step;
    var s1 := Step(env, s, a);
    assert [a, b, c][1..] == [b, c] && [b, c][1..] == [c] && [c][1..] == [];
    assert Run(env, s, [a, b, c]) == Run(env, s1, [b, c]);
    assert Run(env, s1, [b, c]) == Run(env, Step(env, s1, b), [c]);
  }

  /** The body of `process_message_` behind the table: decoding by the operation's tag. */
  method MakeOutcome(env: Environment, operation: string, m: Message) returns (o: Outcome)
    ensures o == OutcomeOf(env, operation, m)
  {
    var failed := !m.success;
    if m.payload.None? {
      return Outcome(failed, Nothing);
    }
    if operation == "update" || operation == "remove" {
      return Outcome(failed, Nothing);
    } else if operation == "search-local" {
      var keys := CollectLocal(env.decode(m.payload.value));
      return Outcome(failed, Agents(keys));
    } else if operation == "search-wide" {
      var items := CollectWide(env.decode(m.payload.value));
      return Outcome(failed, AgentsWide(items));
    }
    return Outcome(true, Nothing);
  }

  lemma KeysStep(agents: seq<AgentInfo>, j: nat)
    requires j <= |agents|
    ensures KeysOf(agents[j..]) == if j == |agents| then [] else [agents[j].key] + KeysOf(agents[j + 1..])
  {
    if j < |agents| { assert agents[j..][1..] == agents[j + 1..]; }
  }

  lemma AllKeysStep(items: seq<Item>, i: nat)
    requires i <= |items|
    ensures AllKeys(items[i..]) ==
            if i == |items| then [] else KeysOf(items[i].agents) + AllKeys(items[i + 1..])
  {
    if i < |items| { assert items[i..][1..] == items[i + 1..]; }
  }

  lemma Regroup(a: seq<Buffer>, b: seq<Buffer>, c: seq<Buffer>)
    ensures a + (b + c) == (a + b) + c
  {
  }

  /** The keys of all agents of all items, in order. */
  method CollectLocal(items: seq<Item>) returns (agents: seq<Buffer>)
    ensures agents == AllKeys(items)
  {
    hide KeysOf, AllKeys;
    agents := [];
    assert items[0..] == items;
    for i := 0 to |items|
      invariant agents + AllKeys(items[i..]) == AllKeys(items)
    {
      AllKeysStep(items, i);
      Regroup(agents, KeysOf(items[i].agents), AllKeys(items[i + 1..]));
      agents := AddKeys(agents, items[i].agents);
    }
    AllKeysStep(items, |items|);
  }

  /** The inner loop. */
  method AddKeys(before: seq<Buffer>, agts: seq<AgentInfo>) returns (agents: seq<Buffer>)
    ensures agents == before + KeysOf(agts)
  {
    hide KeysOf;
    agents := before;
    assert agts[0..] == agts;
    for j := 0 to |agts|
      invariant agents + KeysOf(agts[j..]) == before + KeysOf(agts)
    {
      KeysStep(agts, j);
      Regroup(agents, [agts[j].key], KeysOf(agts[j + 1..]));
      agents := agents + [agts[j].key];
    }
    KeysStep(agts, |agts|);
  }

  /** A field by field copy of the items. */
  method CollectWide(items: seq<Item>) returns (copies: seq<Item>)
    ensures copies == items
  {
    copies := [];
    for i := 0 to |items|
      invariant copies == items[..i]
    {
      var item := items[i];
      var agents: seq<AgentInfo> := [];
      for j := 0 to |item.agents|
        invariant agents == item.agents[..j]
      {
        agents := agents + [AgentInfo(item.agents[j].key, item.agents[j].score)];
      }
      assert agents == item.agents && items[..i + 1] == items[..i] + [item];
      copies := copies + [Item(item.key, item.ip, item.port, item.info, item.distance, agents)];
    }
  }

  // ---- Where a request is ---------------------------------------------------------------

  /** How often a request's continuation was invoked. */
  function Count(log: seq<Invocation>, r: nat): nat {
    if log == [] then 0 else
      Count(log[..|log| - 1], r) + if log[|log| - 1].request == r then 1 else 0
  }

  /** Its handle is in the table. */
  predicate Parked(env: Environment, s: State, r: nat) {
    r < |s.requests| && Lookup(s.handles, Key(env, s.requests[r])).owner == Some(r)
  }

  /** The loop has erased its handle and is about to invoke it. */
  predicate Held(s: State, r: nat) {
    s.loop.Erased? && s.loop.h.owner == Some(r)
  }

  /** In how many places a request is: being sent, parked, held, or answered so many times. */
  function Places(env: Environment, s: State, r: nat): nat {
    (if r in s.sending then 1 else 0) + (if Parked(env, s, r) then 1 else 0)
    + (if Held(s, r) then 1 else 0) + Count(s.log, r)
  }

  predicate HandleOk(env: Environment, requests: seq<Request>, key: Id, h: Handle) {
    match h.owner
    case Some(r) => r < |requests| && key == Key(env, requests[r]) && h.operation == Tag(requests[r].kind)
    case None => h == NO_HANDLE
  }

  /** The invocation has the request's own response, decoded by its own tag, or a failed send. */
  predicate InvocationOk(env: Environment, requests: seq<Request>, x: Invocation) {
    && x.request < |requests|
    && match x.message
       case None => x.outcome == Outcome(true, Nothing)
       case Some(m) =>
         && ResponseId(m.headerId) == Key(env, requests[x.request])
         && x.outcome == OutcomeOf(env, Tag(requests[x.request].kind), m)
  }

  ghost predicate TableOk(env: Environment, s: State) {
    forall key | key in s.handles ::
      s.handles[key].owner.Some? && HandleOk(env, s.requests, key, s.handles[key])
  }

  /** A handle the loop has got and not yet erased is still the one in the table. */
  predicate LoopOk(env: Environment, s: State) {
    match s.loop
    case Fetched(m, h) =>
      && HandleOk(env, s.requests, ResponseId(m.headerId), h)
      && (h.owner.Some? ==> Lookup(s.handles, ResponseId(m.headerId)) == h)
    case Erased(m, h) => HandleOk(env, s.requests, ResponseId(m.headerId), h)
    case _ => true
  }

  ghost predicate LogOk(env: Environment, s: State) {
    forall i | 0 <= i < |s.log| :: InvocationOk(env, s.requests, s.log[i])
  }

  /** No request is in two places, and none is anywhere before it is made. */
  ghost predicate PlacesOk(env: Environment, s: State) {
    forall r: nat :: Places(env, s, r) <= if r < |s.requests| then 1 else 0
  }

  ghost predicate Inv(env: Environment, s: State) {
    TableOk(env, s) && LoopOk(env, s) && LogOk(env, s) && PlacesOk(env, s)
  }

  /** The two ways to lose a request: its key is taken, or the loop looked just before it was parked. */
  predicate Loses(env: Environment, s: State, e: Event, r: nat)
    requires r < |s.requests|
  {
    match e
    case SendDone(x, ok) => x == r && ok && r in s.sending && Key(env, s.requests[r]) in s.handles
    case Erase =>
      && s.loop.Fetched? && s.loop.h.owner.None?
      && ResponseId(s.loop.m.headerId) == Key(env, s.requests[r]) && Parked(env, s, r)
    case _ => false
  }

  lemma CountAppend(log: seq<Invocation>, x: Invocation, r: nat)
    ensures Count(log + [x], r) == Count(log, r) + if x.request == r then 1 else 0
  {
    assert (log + [x])[..|log|] == log;
  }

  /**
   The balance of one step: a new request enters one place, `Loses` says exactly which
   request leaves its place for none, and everything else moves one request from one place
   to another at most.
   */
  lemma PlacesStep(env: Environment, s: State, e: Event, r: nat)
    requires Inv(env, s)
    ensures Places(env, Step(env, s, e), r) ==
            Places(env, s, r)
            + (if e.Submit? && r == |s.requests| then 1 else 0)
            - (if r < |s.requests| && Loses(env, s, e, r) then 1 else 0)
  {
    hide Key, Tag, OutcomeOf, InvocationOk;
    match e
    case Submit(_) => PlacesSubmitted(env, s, e, r);
    case SendDone(_, _) => PlacesSent(env, s, e, r);
    case Erase => PlacesErased(env, s, e, r);
    case Invoke => PlacesInvoked(env, s, e, r);
    case _ =>
  }

  lemma PlacesSubmitted(env: Environment, s: State, e: Event, r: nat)
    requires Inv(env, s) && e.Submit?
    ensures Places(env, Step(env, s, e), r) == Places(env, s, r) + if r == |s.requests| then 1 else 0
  {
    hide Key, Tag, OutcomeOf, InvocationOk, LogOk, LoopOk;
    assert Places(env, s, r) <= if r < |s.requests| then 1 else 0;
  }

  lemma PlacesSent(env: Environment, s: State, e: Event, r: nat)
    requires Inv(env, s) && e.SendDone?
    ensures Places(env, Step(env, s, e), r) ==
            Places(env, s, r) - if r < |s.requests| && Loses(env, s, e, r) then 1 else 0
  {
    hide Key, Tag, OutcomeOf, InvocationOk, LogOk, LoopOk;
    assert Places(env, s, r) <= if r < |s.requests| then 1 else 0;
    if e.r in s.sending && e.r < |s.requests| {
      if e.ok {
        assert Places(env, s, e.r) <= 1;
      } else {
        CountAppend(s.log, Invocation(e.r, None, Outcome(true, Nothing)), r);
      }
    }
  }

  lemma PlacesErased(env: Environment, s: State, e: Event, r: nat)
    requires Inv(env, s) && e.Erase?
    ensures Places(env, Step(env, s, e), r) ==
            Places(env, s, r) - if r < |s.requests| && Loses(env, s, e, r) then 1 else 0
  {
    hide Key, Tag, OutcomeOf, InvocationOk, LogOk, TableOk, PlacesOk, Count;
  }

  lemma PlacesInvoked(env: Environment, s: State, e: Event, r: nat)
    requires Inv(env, s) && e.Invoke?
    ensures Places(env, Step(env, s, e), r) == Places(env, s, r)
  {
    hide Key, Tag, OutcomeOf, InvocationOk, LogOk, TableOk, PlacesOk;
    if s.loop.Erased? {
      match s.loop.h.owner
      case None => assert Step(env, s, e).log == s.log;
      case Some(x) =>
        CountAppend(s.log, Invocation(x, Some(s.loop.m), OutcomeOf(env, s.loop.h.operation, s.loop.m)), r);
    }
  }

  lemma InvStep(env: Environment, s: State, e: Event)
    requires Inv(env, s)
    ensures Inv(env, Step(env, s, e))
  {
    var s' := Step(env, s, e);
    assert PlacesOk(env, s') by {
      forall r: nat ensures Places(env, s', r) <= if r < |s'.requests| then 1 else 0 {
        PlacesStep(env, s, e, r);
      }
    }
    TableStep(env, s, e);
    LoopStep(env, s, e);
    LogStep(env, s, e);
    hide *;
  }

  lemma TableStep(env: Environment, s: State, e: Event)
    requires Inv(env, s)
    ensures TableOk(env, Step(env, s, e))
  {
    hide Key, Tag, OutcomeOf, Invoked, Places, PlacesOk, LogOk, LoopOk;
  }

  lemma LoopStep(env: Environment, s: State, e: Event)
    requires Inv(env, s)
    ensures LoopOk(env, Step(env, s, e))
  {
    hide Key, Tag, OutcomeOf, Invoked, Places, PlacesOk, LogOk;
  }

  lemma LogStep(env: Environment, s: State, e: Event)
    requires Inv(env, s)
    ensures LogOk(env, Step(env, s, e))
  {
    hide Key, Tag, OutcomeOf, Places, PlacesOk, TableOk;
  }

  lemma {:induction false} InvRun(env: Environment, s: State, es: seq<Event>)
    requires Inv(env, s)
    ensures Inv(env, Run(env, s, es))
    decreases |es|
  {
    if es != [] {
      InvStep(env, s, es[0]);
      InvRun(env, Step(env, s, es[0]), es[1..]);
    }
  }

  lemma InvStart(env: Environment)
    ensures Inv(env, START)
  {
  }

  // ---- Over every run -------------------------------------------------------------------

  /**
   Whatever the interleaving, each request's continuation is invoked at most once, with a
   response to its own id decoded by its own operation, or for a send that failed.
   */
  lemma AtMostOnce(env: Environment, es: seq<Event>, r: nat)
    ensures var s := Run(env, START, es);
            && Count(s.log, r) <= 1
            && forall i | 0 <= i < |s.log| :: InvocationOk(env, s.requests, s.log[i])
  {
    InvStart(env);
    InvRun(env, START, es);
    var s := Run(env, START, es);
    hide InvocationOk, Run;
    assert Places(env, s, r) <= 1;
  }

  /** A request that is nowhere, or was answered, stays so. */
  lemma NoWayBack(env: Environment, s: State, e: Event, r: nat)
    requires Inv(env, s) && r < |s.requests|
    ensures var s' := Step(env, s, e);
            && (Places(env, s', r) == 0 <==> Places(env, s, r) == 0 || Loses(env, s, e, r))
            && (Count(s.log, r) == 1 ==> Count(s'.log, r) == 1)
  {
    PlacesStep(env, s, e, r);
    InvStep(env, s, e);
    LogGrows(env, s, e, r);
    hide Step, Loses;
    assert Places(env, s, r) <= 1 && Places(env, Step(env, s, e), r) <= 1;
  }

  lemma LogGrows(env: Environment, s: State, e: Event, r: nat)
    ensures Count(Step(env, s, e).log, r) >= Count(s.log, r)
  {
    if e.SendDone? { CountAppend(s.log, Invocation(e.r, None, Outcome(true, Nothing)), r); }
    if e.Invoke? && s.loop.Erased? {
      hide OutcomeOf;
      match s.loop.h.owner
      case None => assert Step(env, s, e).log == s.log;
      case Some(x) =>
        CountAppend(s.log, Invocation(x, Some(s.loop.m), OutcomeOf(env, s.loop.h.operation, s.loop.m)), r);
    }
  }

  /** Step `i` of the run loses request `r`. */
  predicate LostAt(env: Environment, es: seq<Event>, i: nat, r: nat)
    requires i < |es|
  {
    var s := Run(env, START, es[..i]);
    r < |s.requests| && Loses(env, s, es[i], r)
  }

  lemma {:induction false} RunLast(env: Environment, s: State, es: seq<Event>)
    requires es != []
    ensures Run(env, s, es) == Step(env, Run(env, s, es[..|es| - 1]), es[|es| - 1])
    decreases |es|
  {
    hide Step;
    if |es| > 1 {
      assert es[..|es| - 1][1..] == es[1..][..|es| - 2];
      RunLast(env, Step(env, s, es[0]), es[1..]);
    } else {
      assert es[1..] == [] && es[..0] == [];
    }
  }

  /** In every run a request is gone exactly if one of the run's steps lost it. */
  lemma {:induction false} LostExactly(env: Environment, es: seq<Event>, r: nat)
    ensures var s := Run(env, START, es);
            r < |s.requests| && Places(env, s, r) == 0 <==> exists i | 0 <= i < |es| :: LostAt(env, es, i, r)
    decreases |es|
  {
    if es != [] {
      var n := |es| - 1;
      var s := Run(env, START, es[..n]);
      LostExactly(env, es[..n], r);
      forall i | 0 <= i < n ensures LostAt(env, es, i, r) == LostAt(env, es[..n], i, r) {
        assert es[..n][..i] == es[..i];
      }
      RunLast(env, START, es);
      LostStep(env, s, es[n], r) by {
        InvStart(env);
        InvRun(env, START, es[..n]);
      }
      assert LostAt(env, es, n, r) <==> r < |s.requests| && Loses(env, s, es[n], r);
      hide Run, LostAt, Loses, Places, Step;
    }
  }

  lemma LostStep(env: Environment, s: State, e: Event, r: nat)
    requires Inv(env, s)
    ensures var s' := Step(env, s, e);
            (r < |s'.requests| && Places(env, s', r) == 0) <==>
              r < |s.requests| && (Places(env, s, r) == 0 || Loses(env, s, e, r))
  {
    PlacesStep(env, s, e, r);
    if r < |s.requests| { NoWayBack(env, s, e, r); }
    hide Places, Loses;
    assert Places(env, s, r) <= if r < |s.requests| then 1 else 0;
  }

  /** Sending the same message id twice loses the second request: its key is taken. */
  lemma LostToTakenKey(env: Environment, q: Request)
    ensures var s := Run(env, START, [Submit(q), Submit(q), SendDone(0, true), SendDone(1, true)]);
            |s.requests| == 2 && Places(env, s, 0) == 1 && Places(env, s, 1) == 0
  {
    var s2 := Step(env, Step(env, START, Submit(q)), Submit(q));
    RunTwo(env, START, [Submit(q), Submit(q), SendDone(0, true), SendDone(1, true)]);
    RunTwo(env, s2, [SendDone(0, true), SendDone(1, true)]);
  }

  /** A response that is looked up before its request is parked takes the handle down with it. */
  lemma LostToEarlyResponse(env: Environment, q: Request)
    ensures var m := Message(HeaderId(Key(env, q).bits), true, None);
            var s := Run(env, START, [Submit(q), Receive(m), Get, SendDone(0, true), Erase, Invoke]);
            |s.requests| == 1 && Places(env, s, 0) == 0
  {
    hide Key, HeaderId, ResponseKey, OutcomeOf, Places;
    var m := Message(HeaderId(Key(env, q).bits), true, None);
    var es := [Submit(q), Receive(m), Get, SendDone(0, true), Erase, Invoke];
    var s2 := Step(env, Step(env, START, Submit(q)), Receive(m));
    var s4 := Step(env, Step(env, s2, Get), SendDone(0, true));
    RunTwo(env, START, es);
    RunTwo(env, s2, es[2..]);
    RunTwo(env, s4, es[4..]);
    ParkedTooLate(env, q, m);
    ErasedTooLate(env, q, m);
    hide Step;
    assert es[4..] == [Erase, Invoke] && es[6..] == [];
  }

  lemma ParkedTooLate(env: Environment, q: Request, m: Message)
    ensures var s2 := Step(env, Step(env, START, Submit(q)), Receive(m));
            Step(env, Step(env, s2, Get), SendDone(0, true)) ==
            State([q], {}, map[Key(env, q) := Handle(Tag(q.kind), Some(0))], Fetched(m, NO_HANDLE), [])
  {
    hide Key, ResponseKey, Tag;
  }

  lemma ErasedTooLate(env: Environment, q: Request, m: Message)
    requires m == Message(HeaderId(Key(env, q).bits), true, None)
    ensures var s4 := State([q], {}, map[Key(env, q) := Handle(Tag(q.kind), Some(0))], Fetched(m, NO_HANDLE), []);
            var s6 := Step(env, Step(env, s4, Erase), Invoke);
            |s6.requests| == 1 && Places(env, s6, 0) == 0
  {
    KeyRoundTrip(Key(env, q).bits);
    hide Key, HeaderId, ResponseKey, Tag, OutcomeOf;
  }

  lemma RunTwo(env: Environment, s: State, es: seq<Event>)
    requires |es| >= 2
    ensures Run(env, s, es) == Run(env, Step(env, Step(env, s, es[0]), es[1]), es[2..])
  {
    hide Step;
    assert es[1..][1..] == es[2..];
  }

  // ---- The loop goes on -----------------------------------------------------------------

  /** A completed send parks its request if the key is free; a failed one answers it at once. */
  lemma SendsComplete(env: Environment, s: State, r: nat)
    requires r in s.sending && r < |s.requests|
    ensures var done := Step(env, s, SendDone(r, true));
            && done.log == s.log && done.loop == s.loop && done.sending == s.sending - {r}
            && (Key(env, s.requests[r]) !in s.handles ==> Parked(env, done, r))
    ensures var failed := Step(env, s, SendDone(r, false));
            && failed.log == s.log + [Invocation(r, None, Outcome(true, Nothing))]
            && failed.handles == s.handles && failed.loop == s.loop && failed.sending == s.sending - {r}
  {
    hide Key, Tag;
  }

  /** Only a failed read stops the loop, and only while it waits. */
  lemma OnlyFailureStops(env: Environment, s: State, e: Event)
    ensures Step(env, s, e).loop.Stopped? <==> s.loop.Stopped? || (e == ReceiveFails && s.loop.Waiting?)
  {
    hide Key, Tag, OutcomeOf, Lookup, Save;
  }

  lemma {:induction false} StoppedByFailure(env: Environment, s: State, es: seq<Event>)
    requires !s.loop.Stopped? && Run(env, s, es).loop.Stopped?
    ensures ReceiveFails in es
    decreases |es|
  {
    hide Step;
    OnlyFailureStops(env, s, es[0]);
    if es[0] != ReceiveFails { StoppedByFailure(env, Step(env, s, es[0]), es[1..]); }
  }

  /** The steps that are left of processing a response. */
  function StepsLeft(loop: Loop): seq<Event> {
    match loop
    case Arrived(_) => [Get, Erase, Invoke]
    case Fetched(_, _) => [Erase, Invoke]
    case Erased(_, _) => [Invoke]
    case _ => []
  }

  /** `steps` are taken in this order in `es`, with anything else in between. */
  predicate Takes(es: seq<Event>, steps: seq<Event>) {
    if steps == [] then true
    else if es == [] then false
    else if es[0] == steps[0] then Takes(es[1..], steps[1..])
    else Takes(es[1..], steps)
  }

  /** The loop is at work on the response `m` to request `r`. */
  predicate Serving(env: Environment, s: State, r: nat, m: Message) {
    && r < |s.requests| && ResponseId(m.headerId) == Key(env, s.requests[r])
    && match s.loop
       case Arrived(x) => x == m && Parked(env, s, r)
       case Fetched(x, h) => x == m && h == Handle(Tag(s.requests[r].kind), Some(r))
       case Erased(x, h) => x == m && h == Handle(Tag(s.requests[r].kind), Some(r))
       case _ => false
  }

  function AnswerTo(env: Environment, s: State, r: nat, m: Message): Invocation
    requires r < |s.requests|
  {
    Invocation(r, Some(m), OutcomeOf(env, Tag(s.requests[r].kind), m))
  }

  /** Whatever comes, work on a response goes on, and the step that is due takes it forward. */
  lemma ServingStep(env: Environment, s: State, e: Event, r: nat, m: Message)
    requires Inv(env, s) && Serving(env, s, r, m)
    ensures var s', left := Step(env, s, e), StepsLeft(s.loop);
            && r < |s'.requests| && s'.requests[r] == s.requests[r]
            && (e != left[0] ==> Serving(env, s', r, m) && s'.loop == s.loop)
            && (e == left[0] && left != [Invoke] ==> Serving(env, s', r, m) && StepsLeft(s'.loop) == left[1..])
            && (e == left[0] && left == [Invoke] ==>
                  s'.loop == Waiting && s'.log == s.log + [AnswerTo(env, s, r, m)])
  {
    hide Key, Tag, OutcomeOf, ResponseId, PlacesOk, LogOk;
    match s.loop
    case Arrived(_) =>
      assert HandleOk(env, s.requests, Key(env, s.requests[r]), s.handles[Key(env, s.requests[r])]);
    case _ =>
  }

  lemma {:induction false} LogStays(env: Environment, s: State, es: seq<Event>)
    ensures s.log <= Run(env, s, es).log
    decreases |es|
  {
    if es != [] {
      LogStays(env, Step(env, s, es[0]), es[1..]);
      hide OutcomeOf, Key, Tag;
      assert s.log <= Step(env, s, es[0]).log;
    }
  }

  /**
   A response to a parked request is answered in every run that takes the loop's three steps,
   whatever else happens before, between and after them.
   */
  lemma {:induction false} ResponseIsAnswered(env: Environment, s: State, es: seq<Event>, r: nat, m: Message)
    requires Inv(env, s) && Serving(env, s, r, m) && Takes(es, StepsLeft(s.loop))
    ensures AnswerTo(env, s, r, m) in Run(env, s, es).log
    decreases |es|
  {
    hide Step, Key, Tag, OutcomeOf, ResponseId, Parked;
    var s', left := Step(env, s, es[0]), StepsLeft(s.loop);
    InvStep(env, s, es[0]);
    ServingStep(env, s, es[0], r, m);
    assert Run(env, s, es) == Run(env, s', es[1..]);
    hide Run;
    if es[0] == left[0] && left == [Invoke] {
      LogStays(env, s', es[1..]);
      assert AnswerTo(env, s, r, m) in s'.log;
    } else {
      ResponseIsAnswered(env, s', es[1..], r, m);
    }
  }

  lemma RunFour(env: Environment, s: State, a: Event, b: Event, c: Event, d: Event)
    ensures Run(env, s, [a, b, c, d]) == Step(env, Step(env, Step(env, Step(env, s, a), b), c), d)
  {
    hide Step;
    assert [a, b, c, d][1..] == [b, c, d];
    RunThree(env, Step(env, s, a), b, c, d);
  }

  /**
   In every run: a response that comes while its request is parked and the loop waits is
   answered once the loop takes its three steps, exactly once.
   */
  lemma DeliveredIsAnswered(env: Environment, es: seq<Event>, m: Message, more: seq<Event>, r: nat)
    requires Run(env, START, es).loop == Waiting && Parked(env, Run(env, START, es), r)
    requires ResponseId(m.headerId) == Key(env, Run(env, START, es).requests[r])
    requires Takes(more, [Get, Erase, Invoke])
    ensures var s := Run(env, START, es);
            var end := Run(env, s, [Receive(m)] + more);
            AnswerTo(env, s, r, m) in end.log && Count(end.log, r) == 1
  {
    InvStart(env);
    InvRun(env, START, es);
    var s := Run(env, START, es);
    var arrived := Step(env, s, Receive(m));
    assert ([Receive(m)] + more)[1..] == more;
    assert Run(env, s, [Receive(m)] + more) == Run(env, arrived, more);
    InvStep(env, s, Receive(m));
    InvRun(env, arrived, more);
    hide Run, Key, ResponseId, OutcomeOf, Tag, Takes;
    ResponseIsAnswered(env, arrived, more, r, m);
    var end := Run(env, arrived, more);
    CountedIfLogged(end.log, AnswerTo(env, s, r, m));
    assert Places(env, end, r) <= 1;
  }

  lemma {:induction false} CountedIfLogged(log: seq<Invocation>, x: Invocation)
    requires x in log
    ensures Count(log, x.request) >= 1
  {
    if log[|log| - 1] != x { CountedIfLogged(log[..|log| - 1], x); }
  }

  /** The response `m` took `s` to `s'`: it answered what was parked under its key and nothing else. */
  ghost predicate Processed(env: Environment, s: State, s': State, m: Message) {
    var key := ResponseId(m.headerId);
    && s' == State(s.requests, s.sending, s.handles - {key}, Waiting, s'.log)
    && (key !in s.handles ==> s'.log == s.log)
    && forall r: nat | Parked(env, s, r) ::
         if Key(env, s.requests[r]) == key
         then s'.log == s.log + [AnswerTo(env, s, r, m)] && Count(s'.log, r) == 1
         else Parked(env, s', r)
  }

  /**
   From every reachable state in which the loop waits, one response takes it round to waiting
   again. It answers the one request parked under its key, if there is one, and takes that
   handle only; without one nothing is invoked.
   */
  lemma RoundTheLoop(env: Environment, es: seq<Event>, m: Message)
    requires Run(env, START, es).loop == Waiting
    ensures var s := Run(env, START, es);
            Processed(env, s, Run(env, s, [Receive(m), Get, Erase, Invoke]), m)
  {
    InvStart(env);
    InvRun(env, START, es);
    var s := Run(env, START, es);
    RunFour(env, s, Receive(m), Get, Erase, Invoke);
    hide Run, Processed;
    OneResponse(env, s, m);
  }

  lemma OneResponse(env: Environment, s: State, m: Message)
    requires Inv(env, s) && s.loop == Waiting
    ensures Processed(env, s, Step(env, Step(env, Step(env, Step(env, s, Receive(m)), Get), Erase), Invoke), m)
  {
    hide Key, Tag, OutcomeOf, ResponseId, LogOk, PlacesOk;
    var key := ResponseId(m.headerId);
    var h := Lookup(s.handles, key);
    var s' := Step(env, Step(env, Step(env, Step(env, s, Receive(m)), Get), Erase), Invoke);
    assert s' == State(s.requests, s.sending, s.handles - {key}, Waiting, s.log + Invoked(env, m, h));
    hide Step;
    forall r: nat | Parked(env, s, r)
      ensures if Key(env, s.requests[r]) == key
              then s'.log == s.log + [AnswerTo(env, s, r, m)] && Count(s'.log, r) == 1
              else Parked(env, s', r)
    {
      if Key(env, s.requests[r]) == key {
        assert HandleOk(env, s.requests, key, s.handles[key]);
        NotYetAnswered(env, s, r);
        CountAppend(s.log, AnswerTo(env, s, r, m), r);
      }
    }
  }

  lemma NotYetAnswered(env: Environment, s: State, r: nat)
    requires PlacesOk(env, s) && Parked(env, s, r)
    ensures Count(s.log, r) == 0
  {
    assert Places(env, s, r) <= 1;
  }

  // ---- Runs in which nothing is lost ----------------------------------------------------

  /** Sent or being sent, and not taken up by the loop yet. */
  predicate Outstanding(env: Environment, s: State, r: nat) {
    r in s.sending || Parked(env, s, r)
  }

  /** A new key differs from those outstanding, and no response is looked up before its handle. */
  ghost predicate CalmStep(env: Environment, s: State, e: Event) {
    match e
    case Submit(q) =>
      forall r | 0 <= r < |s.requests| && Outstanding(env, s, r) :: Key(env, s.requests[r]) != Key(env, q)
    case Get => s.loop.Arrived? ==> ResponseId(s.loop.m.headerId) in s.handles
    case _ => true
  }

  ghost predicate CalmRun(env: Environment, s: State, es: seq<Event>)
    decreases |es|
  {
    es == [] || (CalmStep(env, s, es[0]) && CalmRun(env, Step(env, s, es[0]), es[1..]))
  }

  ghost predicate KeysDistinct(env: Environment, s: State) {
    forall i, j | 0 <= i < j < |s.requests| && Outstanding(env, s, i) && Outstanding(env, s, j) ::
      Key(env, s.requests[i]) != Key(env, s.requests[j])
  }

  /** Nothing is lost so far, and nothing is about to be. */
  ghost predicate Calm(env: Environment, s: State) {
    && KeysDistinct(env, s)
    && (s.loop.Fetched? ==> s.loop.h.owner.Some?)
    && forall r | 0 <= r < |s.requests| :: Places(env, s, r) == 1
  }

  lemma CalmKeeps(env: Environment, s: State, e: Event)
    requires Inv(env, s) && Calm(env, s) && CalmStep(env, s, e)
    ensures Calm(env, Step(env, s, e))
  {
    var s' := Step(env, s, e);
    forall r | 0 <= r < |s'.requests| ensures Places(env, s', r) == 1 {
      PlacesStep(env, s, e, r);
      if r < |s.requests| { CalmLosesNothing(env, s, e, r); }
      else { assert Places(env, s, r) <= 0; }
    }
    DistinctKeeps(env, s, e);
    hide Key, Places, Parked, KeysDistinct;
  }

  lemma CalmLosesNothing(env: Environment, s: State, e: Event, r: nat)
    requires Inv(env, s) && Calm(env, s) && r < |s.requests|
    ensures !Loses(env, s, e, r)
  {
    if r in s.sending { SendingKeyIsFree(env, s, r); }
    hide Key, Tag, Inv, Places;
  }

  lemma SendingKeyIsFree(env: Environment, s: State, r: nat)
    requires TableOk(env, s) && Calm(env, s) && r < |s.requests| && r in s.sending
    ensures Key(env, s.requests[r]) !in s.handles
  {
    hide Key, Tag;
    assert Places(env, s, r) == 1;
    forall key | key in s.handles ensures key != Key(env, s.requests[r]) {
      var x := s.handles[key].owner.value;
      assert HandleOk(env, s.requests, key, s.handles[key]);
      assert Outstanding(env, s, x) && x != r;
    }
  }

  lemma DistinctKeeps(env: Environment, s: State, e: Event)
    requires Inv(env, s) && KeysDistinct(env, s) && CalmStep(env, s, e)
    ensures KeysDistinct(env, Step(env, s, e))
  {
    var s' := Step(env, s, e);
    forall r | 0 <= r < |s.requests| && Outstanding(env, s', r) ensures Outstanding(env, s, r) {
      StillOutstanding(env, s, e, r);
    }
    hide Key, Outstanding, Step;
  }

  lemma StillOutstanding(env: Environment, s: State, e: Event, r: nat)
    requires Inv(env, s) && r < |s.requests| && Outstanding(env, Step(env, s, e), r)
    ensures Outstanding(env, s, r)
  {
    hide Key, Tag, PlacesOk, LogOk;
  }

  lemma {:induction false} CalmRuns(env: Environment, s: State, es: seq<Event>)
    requires Inv(env, s) && Calm(env, s) && CalmRun(env, s, es)
    ensures Inv(env, Run(env, s, es)) && Calm(env, Run(env, s, es))
    decreases |es|
  {
    if es != [] {
      InvStep(env, s, es[0]);
      CalmKeeps(env, s, es[0]);
      CalmRuns(env, Step(env, s, es[0]), es[1..]);
    }
  }

  /**
   In a run with distinct outstanding keys and no response ahead of its handle, the table
   holds exactly the requests that were sent and not answered, and no other request is
   anywhere but being sent, held by the loop or answered once.
   */
  lemma TableIsUnanswered(env: Environment, es: seq<Event>, r: nat)
    requires CalmRun(env, START, es)
    ensures var s := Run(env, START, es);
            r < |s.requests| ==>
              && (Parked(env, s, r) <==> r !in s.sending && !Held(s, r) && Count(s.log, r) == 0)
              && Count(s.log, r) <= 1
    ensures var s := Run(env, START, es);
            forall key :: key in s.handles <==>
              exists x :: 0 <= x < |s.requests| && Parked(env, s, x) && Key(env, s.requests[x]) == key
  {
    InvStart(env);
    assert Calm(env, START);
    CalmRuns(env, START, es);
    var s := Run(env, START, es);
    hide Run, CalmRun, Inv;
    if r < |s.requests| {
      assert Places(env, s, r) == 1 by { hide Places; }
    }
    assert TableOk(env, s);
    hide Calm;
    ParkedKeys(env, s);
  }

  lemma ParkedKeys(env: Environment, s: State)
    requires TableOk(env, s)
    ensures forall key :: key in s.handles <==>
              exists x :: 0 <= x < |s.requests| && Parked(env, s, x) && Key(env, s.requests[x]) == key
  {
    hide Key, Tag;
    forall key | key in s.handles
      ensures exists x :: 0 <= x < |s.requests| && Parked(env, s, x) && Key(env, s.requests[x]) == key
    {
      var x := s.handles[key].owner.value;
      assert HandleOk(env, s.requests, key, s.handles[key]);
      assert Parked(env, s, x);
    }
  }

  // ---- What agents are told -------------------------------------------------------------

  datatype ErrorOperation =
    | REGISTER_SERVICE | UNREGISTER_SERVICE | REGISTER_DESCRIPTION | UNREGISTER_DESCRIPTION

  datatype Reply =
    | AgentList(answerId: bv32, agents: seq<Buffer>)
    | WideList(answerId: bv32, items: seq<Item>)
    | OefError(answerId: bv32, operation: ErrorOperation)

  predicate IsSearch(k: Kind) {
    k == SearchAgents || k == SearchServices || k == SearchServicesWide
  }

  /** The continuation of a request in the agent's session: what it sends, if anything. */
  function Continuation(q: Request, o: Outcome): Option<Reply> {
    match q.kind
    case RegisterDescription => if o.failed then Some(OefError(q.msgId, REGISTER_DESCRIPTION)) else None
    case UnregisterDescription => if o.failed then Some(OefError(q.msgId, UNREGISTER_DESCRIPTION)) else None
    case RegisterService => if o.failed then Some(OefError(q.msgId, REGISTER_SERVICE)) else None
    case UnregisterService => if o.failed then Some(OefError(q.msgId, UNREGISTER_SERVICE)) else None
    case SearchServicesWide =>
      Some(if o.failed then OefError(q.msgId, REGISTER_SERVICE)
           else WideList(q.msgId, if o.answer.AgentsWide? then o.answer.items else []))
    case _ =>
      Some(if o.failed then OefError(q.msgId, REGISTER_SERVICE)
           else AgentList(q.msgId, if o.answer.Agents? then o.answer.keys else []))
  }

  /** Everything sent to agents for request `r`. */
  function Replies(requests: seq<Request>, log: seq<Invocation>, r: nat): seq<Reply> {
    if log == [] then [] else
      var before, x := Replies(requests, log[..|log| - 1], r), log[|log| - 1];
      if x.request != r || r >= |requests| then before else
        match Continuation(requests[r], x.outcome)
        case None => before
        case Some(reply) => before + [reply]
  }

  lemma {:induction false} RepliesAreCounted(requests: seq<Request>, log: seq<Invocation>, r: nat)
    requires r < |requests|
    ensures |Replies(requests, log, r)| <= Count(log, r)
    ensures IsSearch(requests[r].kind) ==> |Replies(requests, log, r)| == Count(log, r)
    ensures forall i | 0 <= i < |Replies(requests, log, r)| ::
              Replies(requests, log, r)[i].answerId == requests[r].msgId
  {
    if log != [] {
      RepliesAreCounted(requests, log[..|log| - 1], r);
    }
  }

  /**
   What an agent should be told, from the request and the response alone: an error when the
   send failed or the response says so, and otherwise, for a search, what was found.
   `message` is absent for a send that failed.
   */
  function Expected(env: Environment, q: Request, message: Option<Message>): Option<Reply> {
    var failed := message.None? || !message.value.success;
    var found := if failed || message.value.payload.None? then [] else env.decode(message.value.payload.value);
    match q.kind
    case RegisterDescription => if failed then Some(OefError(q.msgId, REGISTER_DESCRIPTION)) else None
    case UnregisterDescription => if failed then Some(OefError(q.msgId, UNREGISTER_DESCRIPTION)) else None
    case RegisterService => if failed then Some(OefError(q.msgId, REGISTER_SERVICE)) else None
    case UnregisterService => if failed then Some(OefError(q.msgId, UNREGISTER_SERVICE)) else None
    case SearchServicesWide =>
      Some(if failed then OefError(q.msgId, REGISTER_SERVICE) else WideList(q.msgId, found))
    case _ =>
      Some(if failed then OefError(q.msgId, REGISTER_SERVICE) else AgentList(q.msgId, AllKeys(found)))
  }

  /** The tag saved with the handle and the continuation fit together. */
  lemma ContinuationIsExpected(env: Environment, requests: seq<Request>, x: Invocation)
    requires InvocationOk(env, requests, x)
    ensures Continuation(requests[x.request], x.outcome) == Expected(env, requests[x.request], x.message)
  {
    hide Key, ResponseId;
  }

  /** The reply is what is expected for an invocation of the request in the log. */
  ghost predicate IsReply(env: Environment, q: Request, log: seq<Invocation>, r: nat, reply: Reply) {
    exists i :: 0 <= i < |log| && log[i].request == r && Expected(env, q, log[i].message) == Some(reply)
  }

  lemma {:induction false} RepliesAreExpected(env: Environment, requests: seq<Request>, log: seq<Invocation>, r: nat)
    requires r < |requests|
    requires forall i | 0 <= i < |log| :: InvocationOk(env, requests, log[i])
    ensures forall i | 0 <= i < |Replies(requests, log, r)| ::
              IsReply(env, requests[r], log, r, Replies(requests, log, r)[i])
  {
    hide Expected, Continuation, InvocationOk;
    if log != [] {
      var before, x := log[..|log| - 1], log[|log| - 1];
      RepliesAreExpected(env, requests, before, r);
      ContinuationIsExpected(env, requests, x);
      forall i | 0 <= i < |Replies(requests, log, r)|
        ensures IsReply(env, requests[r], log, r, Replies(requests, log, r)[i])
      {
        var reply := Replies(requests, log, r)[i];
        if i < |Replies(requests, before, r)| {
          assert IsReply(env, requests[r], before, r, reply);
          var j :| 0 <= j < |before| && before[j].request == r
                   && Expected(env, requests[r], before[j].message) == Some(reply);
          assert log[j] == before[j];
        } else {
          assert log[|log| - 1].request == r;
        }
      }
    }
  }

  /**
   In every run an agent gets at most one reply to each request, under the request's own
   message id; a search gets one exactly when its continuation was invoked. The reply is the
   one expected for a response to the request's own id, or for its failed send.
   */
  lemma OneReplyEach(env: Environment, es: seq<Event>, r: nat)
    ensures var s := Run(env, START, es);
            r < |s.requests| ==>
              var replies := Replies(s.requests, s.log, r);
              && |replies| <= 1
              && (forall i | 0 <= i < |replies| :: replies[i].answerId == s.requests[r].msgId)
              && (IsSearch(s.requests[r].kind) ==> (|replies| == 1 <==> Count(s.log, r) == 1))
              && (forall i | 0 <= i < |replies| :: IsReply(env, s.requests[r], s.log, r, replies[i]))
              && (forall i | 0 <= i < |s.log| && s.log[i].request == r ::
                    s.log[i].message.Some? ==>
                      ResponseId(s.log[i].message.value.headerId) == Key(env, s.requests[r]))
  {
    var s := Run(env, START, es);
    AtMostOnce(env, es, r);
    if r < |s.requests| {
      RepliesAreCounted(s.requests, s.log, r);
      RepliesAreExpected(env, s.requests, s.log, r);
    }
    hide Run, Replies, Count, IsReply, Key, ResponseId, OutcomeOf;
  }
}
