/**
 Admitting agents and routing their messages (lib/src/core_server.cpp,
 lib/include/agent_directory.hpp, lib/src/agent_session.cpp).

 Connections are numbered as they are accepted, and a session goes by the number of its
 connection. Every handler is a step, except that adding a session and starting it are
 two; a run is any list of steps, so the handshakes of any number of connections interleave
 freely. What happens is written to a log: admissions and removals, messages read and sent.
 */
module Admission {
  import opened Common

  type uint32 = x: int | 0 <= x < 0x1_0000_0000

  function ToUnsigned(x: int32): uint32 { if x < 0 then x + 0x1_0000_0000 else x }
  function ToSigned(x: uint32): int32 { if x < 0x8000_0000 then x else x - 0x1_0000_0000 }

  // ---- Messages -------------------------------------------------------------------------

  datatype Body = NoBody | Bytes(bytes: seq<byte>) | Fipa(message: seq<byte>)

  datatype Message = Message(dialogueId: int32, destination: string, body: Body)

  /** What an agent sends; requests that go on to the search service are `ToSearch`. */
  datatype Envelope = SendMessage(msgId: int32, message: Message) | ToSearch(msgId: int32) | NotSet(msgId: int32)

  datatype AgentMessage =
    | Content(answerId: int32, dialogueId: int32, origin: string, body: Body)
    | DialogueError(answerId: int32, dialogueId: int32, origin: string)

  // ---- The state and its steps ----------------------------------------------------------

  /** `Added`: the directory has taken the session, which does not read yet. */
  datatype Phase =
    | AwaitId
    | AwaitAnswer(key: string)
    | Added(key: string)
    | Live(key: string)
    | Refused
    | Closed

  datatype Entry =
    | Admitted(c: nat, key: string)
    | Removed(c: nat, key: string, erased: bool)
    | Challenged(c: nat, accepted: bool)
    | Connected(c: nat, status: bool)
    | Received(c: nat, key: string, msgId: int32, message: Message)
    | Sent(to: nat, m: AgentMessage)

  datatype State = State(conns: seq<Phase>, directory: map<string, nat>, log: seq<Entry>)

  const START := State([], map[], [])

  /** What a read of the handshake brings. */
  datatype Arrival = ReadError | Unparsable | Parsed(text: string)

  datatype Event =
    | Accept
    | IdArrives(c: nat, id: Arrival)
    | AnswerArrives(c: nat, answer: Arrival)
    | StartSession(c: nat)
    | EnvelopeArrives(c: nat, envelope: Envelope)
    | ReadFails(c: nat)

  /** What `process_message` sends, and to whom, given the directory. */
  function Outgoing(directory: map<string, nat>, c: nat, key: string, msgId: int32, m: Message): (x: Entry)
    ensures x.Sent?
  {
    if m.destination in directory then
      Sent(directory[m.destination], Content(msgId, m.dialogueId, key, m.body))
    else
      Sent(c, DialogueError(msgId, m.dialogueId, m.destination))
  }

  /** An event that is not possible in a state changes nothing. */
  function Step(s: State, e: Event): State {
    match e
    case Accept => s.(conns := s.conns + [AwaitId])
    case IdArrives(c, id) =>
      if c >= |s.conns| || s.conns[c] != AwaitId then s
      else if id.ReadError? then s.(conns := s.conns[c := Closed])
      else if id.Unparsable? || id.text in s.directory then
        s.(conns := s.conns[c := Refused], log := s.log + [Challenged(c, false)])
      else
        s.(conns := s.conns[c := AwaitAnswer(id.text)], log := s.log + [Challenged(c, true)])
    case AnswerArrives(c, answer) =>
      if c >= |s.conns| || !s.conns[c].AwaitAnswer? then s
      else
        var key := s.conns[c].key;
        if answer.ReadError? then s.(conns := s.conns[c := Closed])
        else if answer.Unparsable? || key in s.directory then
          s.(conns := s.conns[c := Refused], log := s.log + [Connected(c, false)])
        else
          State(s.conns[c := Added(key)], s.directory[key := c], s.log + [Admitted(c, key)])
    case StartSession(c) =>
      if c >= |s.conns| || !s.conns[c].Added? then s
      else s.(conns := s.conns[c := Live(s.conns[c].key)], log := s.log + [Connected(c, true)])
    case EnvelopeArrives(c, envelope) =>
      if c >= |s.conns| || !s.conns[c].Live? || !envelope.SendMessage? then s
      else
        var key := s.conns[c].key;
        var read := Received(c, key, envelope.msgId, envelope.message);
        s.(log := s.log + [read] + [Outgoing(s.directory, c, key, envelope.msgId, envelope.message)])
    case ReadFails(c) =>
      if c >= |s.conns| || !s.conns[c].Live? then s
      else
        var key := s.conns[c].key;
        State(s.conns[c := Closed], s.directory - {key}, s.log + [Removed(c, key, key in s.directory)])
  }

  function Run(s: State, es: seq<Event>): State
    decreases |es|
  {
    if es == [] then s else Run(Step(s, es[0]), es[1..])
  }

  // ---- The directory and the server -----------------------------------------------------

  class AgentDirectory {
    var sessions: map<string, nat>

    constructor ()
      ensures sessions == map[]
    {
      sessions := map[];
    }

    method Add(id: string, session: nat) returns (added: bool)
      modifies this
      ensures added <==> id !in old(sessions)
      ensures sessions == if added then old(sessions)[id := session] else old(sessions)
    {
      var known := Exist(id);
      if known {
        return false;
      }
      sessions := sessions[id := session];
      return true;
    }

    method Exist(id: string) returns (known: bool)
      ensures known <==> id in sessions
    {
      return id in sessions;
    }

    method Remove(id: string) returns (removed: bool)
      modifies this
      ensures removed <==> id in old(sessions)
      ensures sessions == old(sessions) - {id}
    {
      removed := id in sessions;
      sessions := sessions - {id};
    }

    method Session(id: string) returns (session: Option<nat>)
      ensures session == if id in sessions then Some(sessions[id]) else None
    {
      if id in sessions {
        return Some(sessions[id]);
      }
      return None;
    }

    method Size() returns (n: nat)
      ensures n == |sessions|
    {
      return |sessions|;
    }

    method Clear()
      modifies this
      ensures sessions == map[]
    {
      sessions := map[];
    }
  }

  class CoreServer {
    const directory: AgentDirectory
    // The handler each connection waits with, and what went over the sockets:
    var conns: seq<Phase>
    var log: seq<Entry>

    ghost function Abs(): State
      reads this, directory
    {
      State(conns, directory.sessions, log)
    }

    constructor ()
      ensures fresh(directory) && Abs() == START
    {
      directory := new AgentDirectory();
      conns, log := [], [];
    }

    method Accepted() returns (c: nat)
      modifies this`conns
      ensures Abs() == Step(old(Abs()), Accept) && c == old(|conns|)
    {
      c := |conns|;
      conns := conns + [AwaitId];
    }

    /** `newSession`: the handler of the first message. */
    method NewSession(c: nat, id: Arrival)
      requires c < |conns| && conns[c] == AwaitId
      modifies this`conns, this`log
      ensures Abs() == Step(old(Abs()), IdArrives(c, id))
    {
      match id {
        case ReadError =>
          conns := conns[c := Closed];
        case Unparsable =>
          log := log + [Challenged(c, false)];
          conns := conns[c := Refused];
        case Parsed(publicKey) =>
          var known := directory.Exist(publicKey);
          if !known {
            SecretHandshake(c, publicKey);
          } else {
            log := log + [Challenged(c, false)];
            conns := conns[c := Refused];
          }
      }
    }

    method SecretHandshake(c: nat, publicKey: string)
      requires c < |conns|
      modifies this`conns, this`log
      ensures conns == old(conns)[c := AwaitAnswer(publicKey)]
      ensures log == old(log) + [Challenged(c, true)]
    {
      log := log + [Challenged(c, true)];
      conns := conns[c := AwaitAnswer(publicKey)];
    }

    /** The handler of the answer, up to the decision of the directory; any answer will do. */
    method AnswerReceived(c: nat, answer: Arrival) returns (added: bool)
      requires c < |conns| && conns[c].AwaitAnswer?
      modifies this`conns, this`log, directory
      ensures Abs() == Step(old(Abs()), AnswerArrives(c, answer))
      ensures added <==> conns[c].Added?
    {
      if answer.ReadError? {
        conns := conns[c := Closed];
        return false;
      }
      if answer.Unparsable? {
        log := log + [Connected(c, false)];
        conns := conns[c := Refused];
        return false;
      }
      var key := conns[c].key;
      added := directory.Add(key, c);
      if added {
        log := log + [Admitted(c, key)];
        conns := conns[c := Added(key)];
      } else {
        log := log + [Connected(c, false)];
        conns := conns[c := Refused];
      }
    }

    /** `session->start()` and the good news. */
    method Start(c: nat)
      requires c < |conns| && conns[c].Added?
      modifies this`conns, this`log
      ensures Abs() == Step(old(Abs()), StartSession(c))
    {
      conns := conns[c := Live(conns[c].key)];
      log := log + [Connected(c, true)];
    }

    /** `AgentSession::read`: its handler, which waits again unless the read failed. */
    method Read(c: nat, buffer: Option<Envelope>)
      requires c < |conns| && conns[c].Live?
      modifies this`conns, this`log, directory
      ensures Abs() == Step(old(Abs()), match buffer
                                        case None => ReadFails(c)
                                        case Some(envelope) => EnvelopeArrives(c, envelope))
    {
      if buffer.None? {
        var key := conns[c].key;
        var erased := directory.Remove(key);
        log := log + [Removed(c, key, erased)];
        conns := conns[c := Closed];
      } else {
        Process(c, conns[c].key, buffer.value);
      }
    }

    method Process(c: nat, key: string, envelope: Envelope)
      modifies this`log
      ensures log == old(log) + if !envelope.SendMessage? then [] else
                                  var read := Received(c, key, envelope.msgId, envelope.message);
                                  [read] + [Outgoing(directory.sessions, c, key, envelope.msgId, envelope.message)]
    {
      var msgId := ToUnsigned(envelope.msgId);
      match envelope
      case SendMessage(_, msg) =>
        log := log + [Received(c, key, envelope.msgId, msg)];
        ProcessMessage(c, key, msgId, msg);
        assert ToSigned(msgId) == envelope.msgId;
      case _ =>
    }

    method ProcessMessage(c: nat, key: string, msgId: uint32, msg: Message)
      modifies this`log
      ensures log == old(log) + [Outgoing(directory.sessions, c, key, ToSigned(msgId), msg)]
    {
      var session := directory.Session(msg.destination);
      var did := ToUnsigned(msg.dialogueId);
      assert ToSigned(did) == msg.dialogueId;
      if session.Some? {
        var body := NoBody;
        if msg.body.Bytes? {
          body := Bytes(msg.body.bytes);
        }
        if msg.body.Fipa? {
          body := Fipa(msg.body.message);
        }
        log := log + [Sent(session.value, Content(ToSigned(msgId), ToSigned(did), key, body))];
      } else {
        SendDialogError(c, msgId, did, msg.destination);
      }
    }

    method SendDialogError(c: nat, msgId: uint32, dialogueId: uint32, origin: string)
      modifies this`log
      ensures log == old(log) + [Sent(c, DialogueError(ToSigned(msgId), ToSigned(dialogueId), origin))]
    {
      log := log + [Sent(c, DialogueError(ToSigned(msgId), ToSigned(dialogueId), origin))];
    }
  }

  // ---- What the log says ----------------------------------------------------------------

  /** Who is registered under a key, by the log alone: the last admission not yet removed. */
  function Registered(log: seq<Entry>, key: string): Option<nat> {
    if log == [] then None else
      match log[|log| - 1]
      case Admitted(c, k) => if k == key then Some(c) else Registered(log[..|log| - 1], key)
      case Removed(_, k, true) => if k == key then None else Registered(log[..|log| - 1], key)
      case _ => Registered(log[..|log| - 1], key)
  }

  /** The connection was admitted, told so, or removed, or it read a message. */
  predicate ActedBy(x: Entry, c: nat) {
    (x.Admitted? || x.Removed? || x.Received? || (x.Connected? && x.status)) && x.c == c
  }

  /**
   What is right about an entry, given those before and after it. A message read is
   answered by the next entry: content, from the sender's key, to the session registered
   under the destination, or else a dialogue error to the sender.
   */
  ghost predicate EntryOk(log: seq<Entry>, i: nat)
    requires i < |log|
  {
    match log[i]
    case Admitted(c, key) =>
      && Registered(log[..i], key) == None
      && forall j | 0 <= j < i :: !ActedBy(log[j], c)
    case Removed(c, key, erased) => erased && Registered(log[..i], key) == Some(c)
    case Received(c, key, msgId, m) =>
      && Registered(log[..i], key) == Some(c)
      && i + 1 < |log|
      && log[i + 1] == (match Registered(log[..i], m.destination)
                        case Some(d) => Sent(d, Content(msgId, m.dialogueId, key, m.body))
                        case None => Sent(c, DialogueError(msgId, m.dialogueId, m.destination)))
    case Sent(_, _) => i > 0 && log[i - 1].Received?
    case _ => true
  }

  // ---- What every step keeps ------------------------------------------------------------

  /** Connection `c` is in the directory's charge: added or reading. */
  predicate Holds(s: State, c: nat, key: string) {
    c < |s.conns| && (s.conns[c] == Added(key) || s.conns[c] == Live(key))
  }

  /** The directory maps each key to the one connection that holds it. */
  ghost predicate DirectoryOk(s: State) {
    forall c: nat, key :: Holds(s, c, key) <==> key in s.directory && s.directory[key] == c
  }

  predicate RegistryAgrees(s: State, key: string) {
    Registered(s.log, key) == if key in s.directory then Some(s.directory[key]) else None
  }

  ghost predicate RegistryOk(s: State) {
    forall key :: RegistryAgrees(s, key)
  }

  ghost predicate LogOk(log: seq<Entry>) {
    forall i | 0 <= i < |log| :: EntryOk(log, i)
  }

  /** Those waiting or refused have done nothing yet. */
  ghost predicate IdleOk(s: State) {
    forall i | 0 <= i < |s.log| :: forall c: nat |
      (c >= |s.conns| || s.conns[c].AwaitId? || s.conns[c].AwaitAnswer? || s.conns[c].Refused?) ::
      !ActedBy(s.log[i], c)
  }

  ghost predicate Inv(s: State) {
    DirectoryOk(s) && RegistryOk(s) && LogOk(s.log) && IdleOk(s)
  }

  lemma RegisteredAppend(log: seq<Entry>, x: Entry, key: string)
    ensures Registered(log + [x], key) ==
            match x
            case Admitted(c, k) => if k == key then Some(c) else Registered(log, key)
            case Removed(_, k, true) => if k == key then None else Registered(log, key)
            case _ => Registered(log, key)
  {
    assert (log + [x])[..|log|] == log;
  }

  lemma OwnEntry(s: State, c: nat)
    requires DirectoryOk(s) && c < |s.conns| && (s.conns[c].Added? || s.conns[c].Live?)
    ensures s.conns[c].key in s.directory && s.directory[s.conns[c].key] == c
  {
    assert Holds(s, c, s.conns[c].key);
  }

  lemma DirectoryStep(s: State, e: Event)
    requires Inv(s)
    ensures DirectoryOk(Step(s, e))
  {
    hide RegistryOk, LogOk, IdleOk, Outgoing;
    var s' := Step(s, e);
    if e.ReadFails? && s' != s { OwnEntry(s, e.c); }
    forall c: nat, key
      ensures Holds(s', c, key) <==> key in s'.directory && s'.directory[key] == c
    {
      assert Holds(s, c, key) <==> key in s.directory && s.directory[key] == c;
    }
  }

  lemma RegistryStep(s: State, e: Event)
    requires Inv(s)
    ensures RegistryOk(Step(s, e))
  {
    hide Step, Registered, RegistryAgrees;
    forall key ensures RegistryAgrees(Step(s, e), key) {
      RegistryStepAt(s, e, key);
    }
  }

  lemma RegistryStepAt(s: State, e: Event, key: string)
    requires Inv(s)
    ensures RegistryAgrees(Step(s, e), key)
  {
    hide LogOk, IdleOk, Outgoing, Registered;
    var s', n := Step(s, e), |s.log|;
    assert RegistryAgrees(s, key);
    if e.ReadFails? && s' != s { OwnEntry(s, e.c); }
    hide DirectoryOk, RegistryOk;
    if |s'.log| == n + 1 {
      RegisteredAppend(s.log, s'.log[n], key);
    } else if |s'.log| == n + 2 {
      RegisteredAppend(s.log, s'.log[n], key);
      RegisteredAppend(s.log + [s'.log[n]], s'.log[n + 1], key);
    }
  }

  lemma IdleStep(s: State, e: Event)
    requires Inv(s)
    ensures IdleOk(Step(s, e))
  {
    hide LogOk, RegistryOk, DirectoryOk, Outgoing;
    var s' := Step(s, e);
    forall i, c: nat | 0 <= i < |s'.log| &&
        (c >= |s'.conns| || s'.conns[c].AwaitId? || s'.conns[c].AwaitAnswer? || s'.conns[c].Refused?)
      ensures !ActedBy(s'.log[i], c)
    {
      if i < |s.log| { assert !ActedBy(s.log[i], c); }
    }
  }

  lemma EntryStays(log: seq<Entry>, more: seq<Entry>, i: nat)
    requires i < |log| && EntryOk(log, i)
    ensures EntryOk(log + more, i)
  {
    hide Registered;
    assert (log + more)[..i] == log[..i];
    assert forall j | 0 <= j < |log| :: (log + more)[j] == log[j];
  }

  lemma LogStep(s: State, e: Event)
    requires Inv(s)
    ensures LogOk(Step(s, e).log)
  {
    var s' := Step(s, e);
    var n := |s.log|;
    assert s'.log[..n] == s.log && s'.log == s.log + s'.log[n..];
    forall i | 0 <= i < |s'.log| ensures EntryOk(s'.log, i) {
      if i < n {
        assert EntryOk(s.log, i);
        EntryStays(s.log, s'.log[n..], i);
      } else {
        NewEntry(s, e, i);
      }
    }
  }

  lemma NewEntry(s: State, e: Event, i: nat)
    requires Inv(s) && |s.log| <= i < |Step(s, e).log|
    ensures EntryOk(Step(s, e).log, i)
  {
    hide Registered, LogOk;
    var log := Step(s, e).log;
    assert log[..|s.log|] == s.log;
    if e.AnswerArrives? || e.ReadFails? || e.EnvelopeArrives? { assert RegistryAgrees(s, s.conns[e.c].key); }
    if e.EnvelopeArrives? { assert RegistryAgrees(s, e.envelope.message.destination); }
    if e.ReadFails? || e.EnvelopeArrives? { OwnEntry(s, e.c); }
  }

  lemma InvStep(s: State, e: Event)
    requires Inv(s)
    ensures Inv(Step(s, e))
  {
    DirectoryStep(s, e);
    RegistryStep(s, e);
    IdleStep(s, e);
    LogStep(s, e);
    hide *;
  }

  lemma {:induction false} InvRun(s: State, es: seq<Event>)
    requires Inv(s)
    ensures Inv(Run(s, es))
    decreases |es|
  {
    if es != [] {
      InvStep(s, es[0]);
      InvRun(Step(s, es[0]), es[1..]);
    }
  }

  lemma InvStart()
    ensures Inv(START)
  {
  }

  // ---- Over every run -------------------------------------------------------------------

  lemma Reachable(es: seq<Event>)
    ensures Inv(Run(START, es))
  {
    InvStart();
    InvRun(START, es);
  }

  /**
   In every reachable state the directory's entries are the sessions added and not yet
   failed, each under its own key; so no two of those share a key.
   */
  lemma DirectoryIsLive(es: seq<Event>, c: nat, d: nat, key: string)
    ensures var s := Run(START, es);
            && (Holds(s, c, key) <==> key in s.directory && s.directory[key] == c)
            && (Holds(s, c, key) && Holds(s, d, key) ==> c == d)
            && (Registered(s.log, key) == Some(c) <==> Holds(s, c, key))
  {
    Reachable(es);
    var s := Run(START, es);
    hide Run, LogOk, IdleOk;
    assert Holds(s, c, key) <==> key in s.directory && s.directory[key] == c;
    assert Holds(s, d, key) <==> key in s.directory && s.directory[key] == d;
    assert RegistryAgrees(s, key);
  }

  /** A read error takes that session's own entry out of the directory, and nothing else. */
  lemma ReadErrorRemovesOwn(es: seq<Event>, c: nat)
    ensures var s := Run(START, es);
            c < |s.conns| && s.conns[c].Live? ==>
              var s', key := Step(s, ReadFails(c)), s.conns[c].key;
              && key in s.directory && s.directory[key] == c && key !in s'.directory
              && s'.log == s.log + [Removed(c, key, true)]
              && forall k | k != key ::
                   && (k in s'.directory <==> k in s.directory)
                   && (k in s.directory ==> s'.directory[k] == s.directory[k])
  {
    Reachable(es);
    var s := Run(START, es);
    hide Run, LogOk, IdleOk, RegistryOk;
    if c < |s.conns| && s.conns[c].Live? { OwnEntry(s, c); }
  }

  lemma {:induction false} RefusedStays(s: State, es: seq<Event>, c: nat)
    requires c < |s.conns| && s.conns[c].Refused?
    ensures var s' := Run(s, es); c < |s'.conns| && s'.conns[c].Refused?
    decreases |es|
  {
    if es != [] {
      RefusedStays(Step(s, es[0]), es[1..], c);
    }
  }

  /**
   A connection refused, for what it sent, for a key already connected or because another
   was added between its check and its answer, is never admitted, never reads and never removes anything.
   */
  lemma RefusedIsSilent(es: seq<Event>, more: seq<Event>, c: nat)
    ensures var s := Run(START, es);
            var s' := Run(s, more);
            c < |s.conns| && s.conns[c].Refused? ==>
              forall i | 0 <= i < |s'.log| :: !ActedBy(s'.log[i], c)
  {
    Reachable(es);
    var s := Run(START, es);
    InvRun(s, more);
    if c < |s.conns| && s.conns[c].Refused? { RefusedStays(s, more, c); }
    hide Run, ActedBy, DirectoryOk, RegistryOk, LogOk;
  }

  lemma {:induction false} RemovedBetween(log: seq<Entry>, i: nat, j: nat, a: nat, key: string)
    requires LogOk(log) && i < j <= |log|
    requires Registered(log[..i], key) == Some(a) && Registered(log[..j], key) != Some(a)
    ensures exists m | i <= m < j :: log[m] == Removed(a, key, true)
    decreases j
  {
    assert log[..j][..j - 1] == log[..j - 1];
    assert EntryOk(log, j - 1);
    if Registered(log[..j - 1], key) == Some(a) {
      assert log[j - 1] == Removed(a, key, true);
    } else {
      assert i < j - 1;
      RemovedBetween(log, i, j - 1, a, key);
    }
  }

  /** Between two admissions of one key the first session is removed. */
  lemma OneAdmissionAtATime(es: seq<Event>, i: nat, j: nat, a: nat, b: nat, key: string)
    requires var log := Run(START, es).log;
             i < j < |log| && log[i] == Admitted(a, key) && log[j] == Admitted(b, key)
    ensures var log := Run(START, es).log;
            && a != b
            && exists m | i < m < j :: log[m] == Removed(a, key, true)
  {
    Reachable(es);
    var log := Run(START, es).log;
    hide Run;
    assert EntryOk(log, j);
    assert ActedBy(log[i], a);
    assert log[..i + 1][..i] == log[..i];
    RemovedBetween(log, i + 1, j, a, key);
  }

  /**
   In every run each message read from a live session is followed by exactly one message
   sent for it: to the session registered under its destination at that moment, with the
   sender's own registered key as origin and the ids and body unchanged, or, when there is
   no such session, a dialogue error back to the sender. Nothing else is sent.
   */
  lemma Routed(es: seq<Event>, i: nat)
    requires i < |Run(START, es).log|
    ensures var log := Run(START, es).log;
            match log[i]
            case Received(c, key, msgId, m) =>
              && Registered(log[..i], key) == Some(c)
              && i + 1 < |log| && log[i + 1].Sent?
              && (forall d :: Registered(log[..i], m.destination) == Some(d) ==>
                    log[i + 1] == Sent(d, Content(msgId, m.dialogueId, key, m.body)))
              && (Registered(log[..i], m.destination) == None ==>
                    log[i + 1] == Sent(c, DialogueError(msgId, m.dialogueId, m.destination)))
            case Sent(to, m) =>
              && i > 0 && log[i - 1].Received?
              && (m.Content? ==> Registered(log[..i - 1], m.origin) == Some(log[i - 1].c))
              && (m.DialogueError? ==>
                    Registered(log[..i - 1], m.origin) == None && to == log[i - 1].c)
            case _ => true
  {
    Reachable(es);
    var log := Run(START, es).log;
    hide Run, Registered;
    assert EntryOk(log, i);
    if i > 0 { assert EntryOk(log, i - 1); }
  }

  // ---- Who gets in ----------------------------------------------------------------------

  /**
   In every reachable state a new connection that sends an id is challenged for that id
   exactly when nobody is registered under it, and refused otherwise. A refusal or a read
   error ends the matter, and the directory is not touched.
   */
  lemma IdDecides(es: seq<Event>, c: nat, key: string)
    requires var s := Run(START, es); c < |s.conns| && s.conns[c] == AwaitId
    ensures var s := Run(START, es);
            && Step(s, IdArrives(c, Parsed(key))) ==
               (if Registered(s.log, key) == None
                then State(s.conns[c := AwaitAnswer(key)], s.directory, s.log + [Challenged(c, true)])
                else State(s.conns[c := Refused], s.directory, s.log + [Challenged(c, false)]))
            && Step(s, IdArrives(c, Unparsable)) ==
               State(s.conns[c := Refused], s.directory, s.log + [Challenged(c, false)])
            && Step(s, IdArrives(c, ReadError)) == State(s.conns[c := Closed], s.directory, s.log)
  {
    Reachable(es);
    var s := Run(START, es);
    hide Run, Registered;
    assert RegistryAgrees(s, key);
  }

  /**
   In every reachable state a challenged connection whose answer can be read is admitted under
   its key exactly when nobody is registered under it at that moment; it then starts and is
   told so. Otherwise it is refused and told that.
   */
  lemma AnswerDecides(es: seq<Event>, c: nat, key: string, text: string)
    requires var s := Run(START, es); c < |s.conns| && s.conns[c] == AwaitAnswer(key)
    ensures var s := Run(START, es);
            var answered := Step(s, AnswerArrives(c, Parsed(text)));
            if Registered(s.log, key) == None then
              && answered == State(s.conns[c := Added(key)], s.directory[key := c], s.log + [Admitted(c, key)])
              && Step(answered, StartSession(c)) ==
                 State(s.conns[c := Live(key)], s.directory[key := c], s.log + [Admitted(c, key), Connected(c, true)])
            else
              answered == State(s.conns[c := Refused], s.directory, s.log + [Connected(c, false)])
    ensures var s := Run(START, es);
            && Step(s, AnswerArrives(c, Unparsable)) ==
               State(s.conns[c := Refused], s.directory, s.log + [Connected(c, false)])
            && Step(s, AnswerArrives(c, ReadError)) == State(s.conns[c := Closed], s.directory, s.log)
  {
    Reachable(es);
    var s := Run(START, es);
    hide Run, Registered;
    assert RegistryAgrees(s, key);
    assert s.conns[c := Added(key)][c := Live(key)] == s.conns[c := Live(key)];
    assert s.log + [Admitted(c, key)] + [Connected(c, true)] == s.log + [Admitted(c, key), Connected(c, true)];
  }

  /** In every reachable state a new agent under a free key gets in when nothing comes between. */
  lemma NewAgentGetsIn(es: seq<Event>, key: string, text: string)
    requires Registered(Run(START, es).log, key) == None
    ensures var s := Run(START, es);
            var c := |s.conns|;
            var s' := Run(s, [Accept, IdArrives(c, Parsed(key)), AnswerArrives(c, Parsed(text)), StartSession(c)]);
            && s'.conns == s.conns + [Live(key)] && s'.directory == s.directory[key := c]
            && s'.log == s.log + [Challenged(c, true), Admitted(c, key), Connected(c, true)]
  {
    Reachable(es);
    var s := Run(START, es);
    var c := |s.conns|;
    RunFour(s, Accept, IdArrives(c, Parsed(key)), AnswerArrives(c, Parsed(text)), StartSession(c));
    hide Run, Registered;
    assert RegistryAgrees(s, key);
    assert (s.conns + [AwaitId])[c := AwaitAnswer(key)][c := Added(key)][c := Live(key)] == s.conns + [Live(key)];
    assert s.log + [Challenged(c, true)] + [Admitted(c, key)] + [Connected(c, true)]
        == s.log + [Challenged(c, true), Admitted(c, key), Connected(c, true)];
  }

  lemma RunFour(s: State, a: Event, b: Event, c: Event, d: Event)
    ensures Run(s, [a, b, c, d]) == Step(Step(Step(Step(s, a), b), c), d)
  {
    hide Step;
    assert [a, b, c, d][1..] == [b, c, d] && [b, c, d][1..] == [c, d] && [c, d][1..] == [d] && [d][1..] == [];
    assert Run(s, [a, b, c, d]) == Run(Step(s, a), [b, c, d]);
    assert Run(Step(s, a), [b, c, d]) == Run(Step(Step(s, a), b), [c, d]);
    assert Run(Step(Step(s, a), b), [c, d]) == Run(Step(Step(Step(s, a), b), c), [d]);
  }

  /**
   In every reachable state a live session that sends a message has it read and answered, and
   goes on reading; anything else it sends leaves the state as it is.
   */
  lemma EnvelopeIsRead(es: seq<Event>, c: nat, key: string, envelope: Envelope)
    requires var s := Run(START, es); c < |s.conns| && s.conns[c] == Live(key)
    ensures var s := Run(START, es);
            var s' := Step(s, EnvelopeArrives(c, envelope));
            && s'.conns == s.conns && s'.directory == s.directory
            && match envelope
               case SendMessage(id, m) =>
                 |s'.log| == |s.log| + 2 && s.log + [Received(c, key, id, m)] <= s'.log && s'.log[|s.log| + 1].Sent?
               case _ => s'.log == s.log
  {
    hide Run, Outgoing;
  }

  /** The phase of a connection, or an entry of it, under a key. */
  predicate Under(s: State, c: nat, key: string) {
    || (c < |s.conns| && (s.conns[c] == AwaitAnswer(key) || s.conns[c] == Added(key) || s.conns[c] == Live(key)))
    || Admitted(c, key) in s.log
  }

  lemma UnderStep(s: State, e: Event, c: nat, key: string)
    requires Under(Step(s, e), c, key)
    ensures Under(s, c, key) || e == IdArrives(c, Parsed(key))
  {
    hide Outgoing;
  }

  /** A connection is only ever treated, and admitted, under a key that it sent as its own id. */
  lemma {:induction false} KeyIsOwnId(s: State, es: seq<Event>, c: nat, key: string)
    requires Under(Run(s, es), c, key)
    ensures Under(s, c, key) || IdArrives(c, Parsed(key)) in es
    decreases |es|
  {
    hide Step, Under;
    if es != [] {
      KeyIsOwnId(Step(s, es[0]), es[1..], c, key);
      if Under(Step(s, es[0]), c, key) { UnderStep(s, es[0], c, key); }
    }
  }

  lemma AdmittedUnderOwnId(es: seq<Event>, c: nat, key: string)
    requires Admitted(c, key) in Run(START, es).log
    ensures IdArrives(c, Parsed(key)) in es
  {
    hide Run;
    KeyIsOwnId(START, es, c, key);
  }

  /** Its key does not change until it is closed or refused, so the first id it sent counts. */
  lemma KeyStays(s: State, e: Event, c: nat)
    requires c < |s.conns| && (s.conns[c].AwaitAnswer? || s.conns[c].Added? || s.conns[c].Live?)
    ensures var phase := Step(s, e).conns[c];
            phase.Closed? || phase.Refused?
            || ((phase.AwaitAnswer? || phase.Added? || phase.Live?) && phase.key == s.conns[c].key)
  {
    hide Outgoing;
  }

  /** Conversions there and back: the ids an agent gets are those that were sent. */
  lemma UnsignedRoundTrip(x: int32, u: uint32)
    ensures ToSigned(ToUnsigned(x)) == x && ToUnsigned(ToSigned(u)) == u
    ensures (ToUnsigned(x) - x) % 0x1_0000_0000 == 0
  {
  }
}
