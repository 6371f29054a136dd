/** The group-key handshake: the two finite state machines, and what they guarantee over an unreliable network. */
module Handshake {
  import opened Prelude

  type Address = nat
  type Key = nat
  type Nonce = nat

  const END_OF_SESSION: nat := 255

  /** Message contents, with ideal signatures and encodings: only `signer` can make `Signed(signer, _)`. */
  datatype Content =
    | Nothing
    | Request
    | Challenge(nonce: Nonce)
    | Signed(signer: Address, content: Content)
    | KeyData(key: Key)

  /** Which key a request asks for; any other value is served with an empty answer. */
  datatype Asked = GroupKey | ProposedGroupKey | Unknown

  datatype Error = NoError | Refused | NotMade | NotEncoded | NotSent | BadSignature | NoKey | NotSigned | NotDecoded

  /** How the calls that one step makes turn out. */
  datatype Env = Env(isMember: bool, key: Option<Key>, keyEncoded: bool, signed: bool,
                     payloadEncoded: bool, made: bool, encoded: bool, sent: bool)

  /** The outcome of composing and sending one message. */
  function SendError(env: Env): Error {
    if !env.made then NotMade else if !env.encoded then NotEncoded else if !env.sent then NotSent else NoError
  }

  // ---- The server -------------------------------------------------------------------------------

  /** `closings` counts the calls of `onSessionClosed`. */
  datatype Machine = Machine(state: nat, error: Error, closings: nat) {
    function Close(): Machine {
      this.(state := END_OF_SESSION, closings := closings + 1)
    }

    function Fail(e: Error): Machine {
      this.(error := e).Close()
    }
  }

  /** The next machine and what it hands to the network, if anything. */
  datatype Move = Move(machine: Machine, output: Option<Content>)

  /** Composes a message; once it reaches the network layer it may arrive even if the send reports an error. */
  function Post(m: Machine, content: Content, env: Env, next: Machine): Move {
    var e := SendError(env);
    Move(if e == NoError then next else m.Fail(e),
         if e == NoError || e == NotSent then Some(content) else None)
  }

  /** What the server answers a verified request with: a key, or nothing for an unknown request. */
  function Answer(asked: Asked, env: Env): Option<Content> {
    if asked == Unknown then Some(Nothing)
    else if env.key.None? || !env.keyEncoded then None
    else Some(KeyData(env.key.value))
  }

  function ServerMove(m: Machine, client: Address, challenge: Nonce, asked: Asked, data: Content, env: Env): Move {
    if m.state == 0 then
      if !env.isMember then Move(m.Fail(Refused), None)
      else Post(m, Challenge(challenge), env, m.(state := 1))
    else if m.state == 1 then
      if data != Signed(client, Challenge(challenge)) then Move(m.Fail(BadSignature), None)
      else if Answer(asked, env).None? then Move(m.Fail(NoKey), None)
      else Post(m, Answer(asked, env).value, env, m.Close())
    else Move(m, None)
  }

  class ServerSession {
    const contact: Address
    const challenge: Nonce
    const asked: Asked
    var state: nat
    var error: Error
    var closings: nat

    ghost function Data(): Machine
      reads this
    {
      Machine(state, error, closings)
    }

    constructor (contact: Address, challenge: Nonce, asked: Asked)
      ensures Data() == Machine(0, NoError, 0)
      ensures this.contact == contact && this.challenge == challenge && this.asked == asked
    {
      this.contact, this.challenge, this.asked := contact, challenge, asked;
      state, error, closings := 0, NoError, 0;
    }

    method Close()
      modifies this
      ensures Data() == old(Data()).Close()
    {
      state := END_OF_SESSION;
      closings := closings + 1;
    }

    method NextState(data: Content, env: Env) returns (output: Option<Content>)
      modifies this
      ensures Move(Data(), output) == ServerMove(old(Data()), contact, challenge, asked, data, env)
    {
      output := None;
      if state == 0 {
        if !env.isMember {
          error := Refused;
          Close();
          return;
        }
        if !env.made {
          error := NotMade;
          Close();
          return;
        }
        if !env.encoded {
          error := NotEncoded;
          Close();
          return;
        }
        output := Some(Challenge(challenge));
        if !env.sent {
          error := NotSent;
          Close();
          return;
        }
        state := 1;
      } else if state == 1 {
        if data != Signed(contact, Challenge(challenge)) {
          error := BadSignature;
          Close();
          return;
        }
        var key := Nothing;
        if asked != Unknown {
          if env.key.None? || !env.keyEncoded {
            error := NoKey;
            Close();
            return;
          }
          key := KeyData(env.key.value);
        }
        if !env.made {
          error := NotMade;
          Close();
          return;
        }
        if !env.encoded {
          error := NotEncoded;
          Close();
          return;
        }
        output := Some(key);
        if !env.sent {
          error := NotSent;
          Close();
          return;
        }
        Close();
      }
    }
  }

  // ---- The client -------------------------------------------------------------------------------

  /** A failed signature closes the session but does not stop the step: it goes on with an empty signature. */
  function ClientMove(m: Machine, self: Address, data: Content, env: Env): Move {
    if m.state == 0 then
      if !env.payloadEncoded then Move(m.Fail(NotEncoded), None)
      else Post(m, Request, env, m.(state := 1))
    else if m.state == 1 then
      var signing := if env.signed then m else m.Fail(NotSigned);
      Post(signing, if env.signed then Signed(self, data) else Nothing, env, signing.(state := 2))
    else if m.state == 2 then
      Move(if data.KeyData? then m.Close() else m.Fail(NotDecoded), None)
    else Move(m, None)
  }

  /** The keys that the success callback receives in this step. */
  function Received(m: Machine, asked: Asked, data: Content): seq<Key> {
    if m.state == 2 && data.KeyData? && asked != Unknown then [data.key] else []
  }

  class ClientSession {
    const self: Address
    const asked: Asked
    var state: nat
    var error: Error
    var closings: nat
    var keys: seq<Key>

    ghost function Data(): Machine
      reads this
    {
      Machine(state, error, closings)
    }

    constructor (self: Address, asked: Asked)
      ensures Data() == Machine(0, NoError, 0) && keys == [] && this.self == self && this.asked == asked
    {
      this.self, this.asked := self, asked;
      state, error, closings, keys := 0, NoError, 0, [];
    }

    method Close()
      modifies `state, `closings
      ensures Data() == old(Data()).Close()
    {
      state := END_OF_SESSION;
      closings := closings + 1;
    }

    method NextState(data: Content, env: Env) returns (output: Option<Content>)
      modifies this
      ensures Move(Data(), output) == ClientMove(old(Data()), self, data, env)
      ensures keys == old(keys) + Received(old(Data()), asked, data)
    {
      output := None;
      if state == 0 {
        if !env.payloadEncoded {
          error := NotEncoded;
          Close();
          return;
        }
        if !env.made {
          error := NotMade;
          Close();
          return;
        }
        if !env.encoded {
          error := NotEncoded;
          Close();
          return;
        }
        output := Some(Request);
        if !env.sent {
          error := NotSent;
          Close();
          return;
        }
        state := 1;
      } else if state == 1 {
        var sig := Signed(self, data);
        if !env.signed {
          sig := Nothing;
          error := NotSigned;
          Close();
        }
        if !env.made {
          error := NotMade;
          Close();
          return;
        }
        if !env.encoded {
          error := NotEncoded;
          Close();
          return;
        }
        output := Some(sig);
        if !env.sent {
          error := NotSent;
          Close();
          return;
        }
        state := 2;
      } else if state == 2 {
        if !data.KeyData? {
          error := NotDecoded;
          Close();
          return;
        }
        if asked != Unknown {
          keys := keys + [data.key];
        }
        Close();
      }
    }
  }

  // ---- Both ends over a network -----------------------------------------------------------------

  /** One session. Everything ever handed to the network stays deliverable, so messages may be lost, delayed,
      reordered and repeated at will. The remaining fields record what happened. */
  datatype Session = Session(
    client: Machine,
    server: Machine,
    toServer: set<Content>,
    toClient: set<Content>,
    clientRan: bool,
    serverCreated: bool,
    serverRan: bool,
    challenges: seq<Content>,
    answers: seq<Content>,
    memberPassed: bool,
    signatureVerified: bool,
    signingFailed: bool,
    callbackKeys: seq<Key>,
    received: seq<Key>)

  datatype Setup = Setup(clientAddress: Address, challenge: Nonce, asked: Asked)

  const START := Session(Machine(0, NoError, 0), Machine(0, NoError, 0), {}, {}, false, false, false,
                         [], [], false, false, false, [], [])

  /** Each session runs once; afterwards only deliveries move it. The first delivery to the server creates its
      session. */
  datatype Event =
    | RunClient(env: Env)
    | RunServer(env: Env)
    | ToServer(data: Content, env: Env)
    | ToClient(data: Content, env: Env)

  function Outputs(output: Option<Content>): set<Content> {
    if output.Some? then {output.value} else {}
  }

  function Sequence(output: Option<Content>): seq<Content> {
    if output.Some? then [output.value] else []
  }

  function ServerStep(u: Setup, s: Session, data: Content, env: Env): Session {
    var mv := ServerMove(s.server, u.clientAddress, u.challenge, u.asked, data, env);
    var first, second := s.server.state == 0, s.server.state == 1;
    var verified := second && data == Signed(u.clientAddress, Challenge(u.challenge));
    s.(server := mv.machine,
       toClient := s.toClient + Outputs(mv.output),
       challenges := s.challenges + (if first then Sequence(mv.output) else []),
       answers := s.answers + (if second then Sequence(mv.output) else []),
       memberPassed := s.memberPassed || (first && env.isMember),
       signatureVerified := s.signatureVerified || verified,
       callbackKeys := s.callbackKeys +
                       (if verified && u.asked != Unknown && env.key.Some? then [env.key.value] else []))
  }

  function ClientStep(u: Setup, s: Session, data: Content, env: Env): Session {
    var mv := ClientMove(s.client, u.clientAddress, data, env);
    s.(client := mv.machine,
       toServer := s.toServer + Outputs(mv.output),
       signingFailed := s.signingFailed || (s.client.state == 1 && !env.signed),
       received := s.received + Received(s.client, u.asked, data))
  }

  function Step(u: Setup, s: Session, e: Event): Session {
    match e
    case RunClient(env) => if s.clientRan then s else ClientStep(u, s.(clientRan := true), Nothing, env)
    case RunServer(env) =>
      if !s.serverCreated || s.serverRan then s else ServerStep(u, s.(serverRan := true), Nothing, env)
    case ToServer(data, env) =>
      if data !in s.toServer then s
      else if !s.serverCreated then (if data == Request then s.(serverCreated := true) else s)
      else ServerStep(u, s, data, env)
    case ToClient(data, env) =>
      if data !in s.toClient || !s.clientRan then s else ClientStep(u, s, data, env)
  }

  function Run(u: Setup, events: seq<Event>): Session {
    if events == [] then START else Step(u, Run(u, events[..|events| - 1]), events[|events| - 1])
  }

  // ---- Safety -----------------------------------------------------------------------------------

  ghost predicate ServerSafe(u: Setup, s: Session) {
    && (s.server.state == 0 || s.server.state == 1 || s.server.state == END_OF_SESSION)
    && s.server.closings == (if s.server.state == END_OF_SESSION then 1 else 0)
    && (s.server.state == 0 ==> s.challenges == [] && s.answers == [] && s.callbackKeys == [])
    && (s.server.state == 1 ==> s.challenges == [Challenge(u.challenge)] && s.memberPassed)
    && (s.server.state == 1 ==> s.answers == [] && s.callbackKeys == [])
    && (s.challenges == [] || s.challenges == [Challenge(u.challenge)])
    && |s.answers| <= 1 && |s.callbackKeys| <= 1
    && (s.answers != [] ==> s.memberPassed && s.signatureVerified && s.challenges != [])
    && (s.answers != [] ==> s.answers[0] == if u.asked == Unknown then Nothing
                                            else if s.callbackKeys == [] then s.answers[0]
                                            else KeyData(s.callbackKeys[0]))
    && (s.answers != [] && u.asked != Unknown ==> s.callbackKeys != [])
    && (s.signatureVerified ==> Signed(u.clientAddress, Challenge(u.challenge)) in s.toServer)
    && (forall m | m in s.toClient :: m in s.challenges || m in s.answers)
  }

  ghost predicate ClientSafe(u: Setup, s: Session) {
    && (s.client.state <= 2 || s.client.state == END_OF_SESSION)
    && (s.client.state < END_OF_SESSION ==> s.received == [])
    && |s.received| <= 1
    && (forall k | k in s.received :: KeyData(k) in s.toClient)
    && (s.client.state <= 1 ==> s.client.closings == 0 && !s.signingFailed)
    && (s.client.state == 2 ==> s.client.closings == (if s.signingFailed then 1 else 0))
    && (s.client.state == END_OF_SESSION ==> s.client.closings == (if s.signingFailed then 2 else 1))
    && (forall m | m in s.toServer ::
          m == Request || m == Nothing || (m.Signed? && m.signer == u.clientAddress && m.content in s.toClient))
    && (s.client.state == 0 ==> s.toServer == {})
    && (s.clientRan <==> s.client.state != 0)
  }

  ghost predicate Safe(u: Setup, s: Session) {
    ServerSafe(u, s) && ClientSafe(u, s)
  }

  lemma ServerOpensSafely(u: Setup, s: Session, data: Content, env: Env)
    requires Safe(u, s) && s.server.state == 0
    ensures Safe(u, ServerStep(u, s, data, env))
  {
  }

  lemma ServerAnswersSafely(u: Setup, s: Session, data: Content, env: Env)
    requires Safe(u, s) && (data in s.toServer || data == Nothing) && s.server.state != 0
    ensures Safe(u, ServerStep(u, s, data, env))
  {
  }

  lemma ServerStepSafe(u: Setup, s: Session, data: Content, env: Env)
    requires Safe(u, s) && (data in s.toServer || data == Nothing)
    ensures Safe(u, ServerStep(u, s, data, env))
  {
    if s.server.state == 0 {
      ServerOpensSafely(u, s, data, env);
    } else {
      ServerAnswersSafely(u, s, data, env);
    }
  }

  lemma ClientStepSafe(u: Setup, s: Session, data: Content, env: Env)
    requires Safe(u, s) && (data in s.toClient || s.client.state == 0)
    requires s.client.state != 0 ==> s.clientRan
    ensures Safe(u, ClientStep(u, s, data, env).(clientRan := true))
  {
  }

  lemma {:induction false} RunSafe(u: Setup, events: seq<Event>)
    ensures Safe(u, Run(u, events))
  {
    if events != [] {
      var before, e := Run(u, events[..|events| - 1]), events[|events| - 1];
      RunSafe(u, events[..|events| - 1]);
      StepSafe(u, before, e);
    }
  }

  lemma StepSafe(u: Setup, s: Session, e: Event)
    requires Safe(u, s)
    ensures Safe(u, Step(u, s, e))
  {
    match e
    case RunClient(env) => if !s.clientRan { ClientStepSafe(u, s, Nothing, env); }
    case RunServer(env) =>
      if s.serverCreated && !s.serverRan { ServerStepSafe(u, s.(serverRan := true), Nothing, env); }
    case ToServer(data, env) => if data in s.toServer && s.serverCreated { ServerStepSafe(u, s, data, env); }
    case ToClient(data, env) => if data in s.toClient && s.clientRan { ClientStepSafe(u, s, data, env); }
  }

  /** Whatever the network does: at most one challenge and one answer leave the server, an answer only after the
      membership check passed and the client signed this session's challenge; the client accepts at most one key,
      and only the one that the server's callback returned. A session that has ended was closed once, but the
      client's twice when signing failed. */
  lemma HandshakeSafety(u: Setup, events: seq<Event>)
    ensures Secure(u, Run(u, events))
  {
    RunSafe(u, events);
    SafeIsSecure(u, Run(u, events));
  }

  ghost predicate Secure(u: Setup, s: Session) {
    && |s.challenges| <= 1 && |s.answers| <= 1 && |s.received| <= 1
    && (s.answers != [] ==> s.memberPassed && s.signatureVerified)
    && (s.signatureVerified ==> Signed(u.clientAddress, Challenge(u.challenge)) in s.toServer)
    && (s.received != [] ==> s.received == s.callbackKeys)
    && s.server.closings == (if s.server.state == END_OF_SESSION then 1 else 0)
    && (s.client.state == END_OF_SESSION ==> s.client.closings == (if s.signingFailed then 2 else 1))
  }

  lemma SafeIsSecure(u: Setup, s: Session)
    requires Safe(u, s)
    ensures Secure(u, s)
  {
    if s.received != [] {
      var k := s.received[0];
      assert k in s.received;
      assert KeyData(k) in s.toClient;
      assert KeyData(k) in s.answers;
    }
  }

  /** A run that closes the client's session twice: the challenge arrives, signing it fails, and so does sending
      the empty signature. */
  lemma ClosesTwice(u: Setup) returns (events: seq<Event>)
    ensures Run(u, events).client == Machine(END_OF_SESSION, NotSent, 2) && Run(u, events).signingFailed
  {
    var fine := Env(true, Some(0), true, true, true, true, true, true);
    var failing := fine.(signed := false, sent := false);
    events := [RunClient(fine), ToServer(Request, fine), RunServer(fine), ToClient(Challenge(u.challenge), failing)];
    ChallengeReached(u, 0, events);
    RunNext(u, events, 3);
    assert events[..4] == events;
  }

  // ---- How sessions end -------------------------------------------------------------------------

  /** The session after more events. */
  function RunFrom(u: Setup, s: Session, events: seq<Event>): Session {
    if events == [] then s else Step(u, RunFrom(u, s, events[..|events| - 1]), events[|events| - 1])
  }

  lemma {:induction false} RunAppend(u: Setup, events: seq<Event>, later: seq<Event>)
    ensures Run(u, events + later) == RunFrom(u, Run(u, events), later)
  {
    if later == [] {
      assert events + later == events;
    } else {
      RunAppend(u, events, later[..|later| - 1]);
      assert (events + later)[..|events + later| - 1] == events + later[..|later| - 1];
    }
  }

  /** A server session that has ended does nothing any more, whatever arrives. */
  lemma {:induction false} ServerEndIsFinal(u: Setup, s: Session, later: seq<Event>)
    requires s.server.state == END_OF_SESSION
    ensures var s' := RunFrom(u, s, later);
            && s'.server == s.server && s'.challenges == s.challenges && s'.answers == s.answers
            && s'.callbackKeys == s.callbackKeys && s'.toClient == s.toClient
  {
    if later != [] {
      ServerEndIsFinal(u, s, later[..|later| - 1]);
      EndedServerIdle(u, RunFrom(u, s, later[..|later| - 1]), later[|later| - 1]);
    }
  }

  lemma EndedServerStep(u: Setup, s: Session, data: Content, env: Env)
    requires s.server.state == END_OF_SESSION
    ensures ServerStep(u, s, data, env) == s
  {
    assert s.toClient + {} == s.toClient;
  }

  lemma EndedServerIdle(u: Setup, s: Session, e: Event)
    requires s.server.state == END_OF_SESSION
    ensures var s' := Step(u, s, e);
            && s'.server == s.server && s'.challenges == s.challenges && s'.answers == s.answers
            && s'.callbackKeys == s.callbackKeys && s'.toClient == s.toClient
  {
    match e
    case RunServer(env) => EndedServerStep(u, s.(serverRan := true), Nothing, env);
    case ToServer(data, env) => EndedServerStep(u, s, data, env);
    case _ =>
  }

  lemma EndedClientIdle(u: Setup, s: Session, e: Event)
    requires s.client.state == END_OF_SESSION && s.clientRan
    ensures var s' := Step(u, s, e);
            && s'.client == s.client && s'.received == s.received && s'.toServer == s.toServer
            && s'.signingFailed == s.signingFailed && s'.clientRan
  {
  }

  /** Neither does a client session that has ended. */
  lemma {:induction false} ClientEndIsFinal(u: Setup, s: Session, later: seq<Event>)
    requires s.client.state == END_OF_SESSION && s.clientRan
    ensures var s' := RunFrom(u, s, later);
            && s'.client == s.client && s'.received == s.received && s'.toServer == s.toServer
            && s'.signingFailed == s.signingFailed && s'.clientRan
  {
    if later != [] {
      ClientEndIsFinal(u, s, later[..|later| - 1]);
      EndedClientIdle(u, RunFrom(u, s, later[..|later| - 1]), later[|later| - 1]);
    }
  }

  /** Sessions that are under way have no error yet, unless signing has failed. */
  ghost predicate NoErrorYet(s: Session) {
    && (s.server.state <= 1 ==> s.server.error == NoError)
    && (s.client.state < END_OF_SESSION && !s.signingFailed ==> s.client.error == NoError)
  }

  lemma ServerErrorStep(u: Setup, s: Session, data: Content, env: Env)
    requires NoErrorYet(s) && ServerSafe(u, s)
    ensures NoErrorYet(ServerStep(u, s, data, env))
  {
  }

  lemma ClientErrorStep(u: Setup, s: Session, data: Content, env: Env)
    requires NoErrorYet(s) && ClientSafe(u, s)
    ensures NoErrorYet(ClientStep(u, s, data, env))
  {
  }

  lemma ErrorStep(u: Setup, s: Session, e: Event)
    requires NoErrorYet(s) && Safe(u, s)
    ensures NoErrorYet(Step(u, s, e))
  {
    match e
    case RunClient(env) => ClientErrorStep(u, s, Nothing, env);
    case RunServer(env) => ServerErrorStep(u, s, Nothing, env);
    case ToServer(data, env) => ServerErrorStep(u, s, data, env);
    case ToClient(data, env) => ClientErrorStep(u, s, data, env);
  }

  lemma {:induction false} RunNoErrorYet(u: Setup, events: seq<Event>)
    ensures NoErrorYet(Run(u, events))
  {
    if events != [] {
      RunSafe(u, events[..|events| - 1]);
      RunNoErrorYet(u, events[..|events| - 1]);
      ErrorStep(u, Run(u, events[..|events| - 1]), events[|events| - 1]);
    }
  }

  lemma RunPlus(u: Setup, events: seq<Event>, e: Event)
    ensures Run(u, events + [e]) == Step(u, Run(u, events), e)
  {
    assert (events + [e])[..|events|] == events;
  }

  /** The first step of a server session: it challenges a member and waits, and ends at once, for the reason given,
      when the contact is no member or the challenge does not go out. */
  lemma ServerOpens(u: Setup, events: seq<Event>, env: Env)
    requires Run(u, events).serverCreated && !Run(u, events).serverRan && Run(u, events).server.state == 0
    ensures var s := Run(u, events + [RunServer(env)]);
            if env.isMember && env.made && env.encoded && env.sent then
              s.server == Machine(1, NoError, 0) && s.challenges == [Challenge(u.challenge)] && s.memberPassed
            else
              && s.server.state == END_OF_SESSION && s.server.closings == 1
              && s.answers == [] && s.callbackKeys == []
              && s.server.error == (if !env.isMember then Refused else if !env.made then NotMade
                                    else if !env.encoded then NotEncoded else NotSent)
              && (!env.isMember ==> s.challenges == [])
  {
    RunSafe(u, events);
    RunNoErrorYet(u, events);
    RunPlus(u, events, RunServer(env));
  }

  /** A refused contact never gets anything, whatever happens later. */
  lemma RefusalIsFinal(u: Setup, events: seq<Event>, env: Env, later: seq<Event>)
    requires Run(u, events).serverCreated && !Run(u, events).serverRan && Run(u, events).server.state == 0
    requires !env.isMember
    ensures var s := Run(u, events + [RunServer(env)] + later);
            && s.server == Machine(END_OF_SESSION, Refused, 1)
            && s.challenges == [] && s.answers == [] && s.callbackKeys == [] && s.received == []
  {
    ServerOpens(u, events, env);
    RunAppend(u, events + [RunServer(env)], later);
    ServerEndIsFinal(u, Run(u, events + [RunServer(env)]), later);
    NothingReceived(u, events + [RunServer(env)] + later);
  }

  /** Without an answer from the server the client gets no key. */
  lemma NothingReceived(u: Setup, events: seq<Event>)
    ensures Run(u, events).callbackKeys == [] ==> Run(u, events).received == []
  {
    HandshakeSafety(u, events);
  }

  /** The second delivery ends a server session in any case: with an answer only for the client's signature of its
      challenge and a key that is there, and otherwise with the reason and without an answer. */
  lemma ServerAnswers(u: Setup, events: seq<Event>, data: Content, env: Env)
    requires Run(u, events).serverCreated && Run(u, events).server.state == 1 && data in Run(u, events).toServer
    ensures var s := Run(u, events + [ToServer(data, env)]);
            && s.server.state == END_OF_SESSION && s.server.closings == 1
            && (if data != Signed(u.clientAddress, Challenge(u.challenge)) then
                  s.server.error == BadSignature && s.answers == []
                else if u.asked != Unknown && (env.key.None? || !env.keyEncoded) then
                  s.server.error == NoKey && s.answers == []
                else if !env.made || !env.encoded then
                  s.server.error == (if !env.made then NotMade else NotEncoded) && s.answers == []
                else
                  && s.server.error == (if env.sent then NoError else NotSent)
                  && s.answers == [if u.asked == Unknown then Nothing else KeyData(env.key.value)])
  {
    RunSafe(u, events);
    RunNoErrorYet(u, events);
    RunPlus(u, events, ToServer(data, env));
  }

  /** After anything but the client's signature of the challenge, the session stays ended and no key ever arrives. */
  lemma BadSignatureIsFinal(u: Setup, events: seq<Event>, data: Content, env: Env, later: seq<Event>)
    requires Run(u, events).serverCreated && Run(u, events).server.state == 1 && data in Run(u, events).toServer
    requires data != Signed(u.clientAddress, Challenge(u.challenge))
    ensures var s := Run(u, events + [ToServer(data, env)] + later);
            && s.server == Machine(END_OF_SESSION, BadSignature, 1)
            && s.answers == [] && s.callbackKeys == [] && s.received == []
  {
    ServerAnswers(u, events, data, env);
    BadSignatureAsksNothing(u, events, data, env);
    RunAppend(u, events + [ToServer(data, env)], later);
    ServerEndIsFinal(u, Run(u, events + [ToServer(data, env)]), later);
    NothingReceived(u, events + [ToServer(data, env)] + later);
  }

  lemma BadSignatureAsksNothing(u: Setup, events: seq<Event>, data: Content, env: Env)
    requires Run(u, events).serverCreated && Run(u, events).server.state == 1 && data in Run(u, events).toServer
    requires data != Signed(u.clientAddress, Challenge(u.challenge))
    ensures Run(u, events + [ToServer(data, env)]).callbackKeys == []
  {
    RunSafe(u, events);
    RunPlus(u, events, ToServer(data, env));
  }

  /** The first step of a client session: the request goes out, or the session ends for the reason given. */
  lemma ClientOpens(u: Setup, events: seq<Event>, env: Env)
    requires !Run(u, events).clientRan
    ensures var s := Run(u, events + [RunClient(env)]);
            if env.payloadEncoded && env.made && env.encoded && env.sent then
              s.client == Machine(1, NoError, 0) && s.toServer == {Request}
            else
              && s.client.state == END_OF_SESSION && s.client.closings == 1 && s.received == []
              && s.client.error == (if !env.payloadEncoded then NotEncoded else if !env.made then NotMade
                                    else if !env.encoded then NotEncoded else NotSent)
  {
    RunSafe(u, events);
    RunNoErrorYet(u, events);
    RunPlus(u, events, RunClient(env));
  }

  /** The client answers the challenge with its signature, or with nothing when signing fails, and waits; it ends when
      the message does not go out. */
  lemma ClientAnswers(u: Setup, events: seq<Event>, data: Content, env: Env)
    requires Run(u, events).client.state == 1 && data in Run(u, events).toClient
    ensures var before, s := Run(u, events), Run(u, events + [ToClient(data, env)]);
            var answer := if env.signed then Signed(u.clientAddress, data) else Nothing;
            && s.signingFailed == !env.signed && s.received == []
            && s.toServer == before.toServer + (if env.made && env.encoded then {answer} else {})
            && (if env.made && env.encoded && env.sent then s.client.state == 2
                else s.client.state == END_OF_SESSION
                     && s.client.error == (if !env.made then NotMade else if !env.encoded then NotEncoded else NotSent))
            && (env.made && env.encoded && env.sent ==> s.client.error == (if env.signed then NoError else NotSigned))
  {
    RunSafe(u, events);
    RunNoErrorYet(u, events);
    RunPlus(u, events, ToClient(data, env));
  }

  /** The last delivery ends a client session for good: with the key that arrived for a known request, and with
      nothing but an error when it is no key. */
  lemma ClientEnds(u: Setup, events: seq<Event>, data: Content, env: Env, later: seq<Event>)
    requires Run(u, events).client.state == 2 && data in Run(u, events).toClient
    ensures var s := Run(u, events + [ToClient(data, env)] + later);
            && s.client.state == END_OF_SESSION
            && (if data.KeyData? then
                  s.client.error == Run(u, events).client.error
                  && s.received == (if u.asked != Unknown then [data.key] else [])
                else s.client.error == NotDecoded && s.received == [])
  {
    RunSafe(u, events);
    RunPlus(u, events, ToClient(data, env));
    RunAppend(u, events + [ToClient(data, env)], later);
    ClientEndIsFinal(u, Run(u, events + [ToClient(data, env)]), later);
  }

  // ---- Completion -------------------------------------------------------------------------------

  /** All calls of the step succeed; `key` is what the server's callback has, should it be asked. */
  ghost predicate Fine(env: Env, key: Key) {
    env.isMember && env.key == Some(key) && env.keyEncoded && env.signed && env.payloadEncoded
    && SendError(env) == NoError
  }

  /** In-order delivery of every message: there is then only one order of steps. */
  function InOrder(u: Setup, key: Key, envs: seq<Env>): seq<Event>
    requires |envs| == 6
  {
    [RunClient(envs[0]), ToServer(Request, envs[1]), RunServer(envs[2]), ToClient(Challenge(u.challenge), envs[3]),
     ToServer(Signed(u.clientAddress, Challenge(u.challenge)), envs[4]), ToClient(KeyData(key), envs[5])]
  }

  lemma RunNext(u: Setup, events: seq<Event>, k: nat)
    requires k < |events|
    ensures Run(u, events[..k + 1]) == Step(u, Run(u, events[..k]), events[k])
  {
    assert events[..k + 1][..k] == events[..k];
  }

  /** The request has created the server's session. */
  const REQUESTED :=
    START.(client := Machine(1, NoError, 0), toServer := {Request}, clientRan := true, serverCreated := true)

  /** The challenge is on its way to the client. */
  function Challenged(u: Setup): Session {
    REQUESTED.(server := Machine(1, NoError, 0), serverRan := true, toClient := {Challenge(u.challenge)},
               challenges := [Challenge(u.challenge)], memberPassed := true)
  }

  /** The signed challenge is on its way to the server. */
  function Answering(u: Setup): Session {
    Challenged(u).(client := Machine(2, NoError, 0),
                   toServer := {Request, Signed(u.clientAddress, Challenge(u.challenge))})
  }

  lemma Requests(u: Setup, env: Env, env': Env, key: Key)
    requires Fine(env, key)
    ensures Step(u, Step(u, START, RunClient(env)), ToServer(Request, env')) == REQUESTED
  {
  }

  lemma Challenges(u: Setup, env: Env, key: Key)
    requires Fine(env, key)
    ensures Step(u, REQUESTED, RunServer(env)) == Challenged(u)
  {
  }

  lemma Signs(u: Setup, env: Env, key: Key)
    requires Fine(env, key)
    ensures Step(u, Challenged(u), ToClient(Challenge(u.challenge), env)) == Answering(u)
  {
    var s := Challenged(u);
    assert Step(u, s, ToClient(Challenge(u.challenge), env)) == ClientStep(u, s, Challenge(u.challenge), env);
    assert s.received + [] == s.received;
  }

  /** The server has verified the signature and handed out the key. */
  ghost predicate Answered(u: Setup, s: Session, key: Key) {
    && s.client == Machine(2, NoError, 0) && s.server == Machine(END_OF_SESSION, NoError, 1)
    && KeyData(key) in s.toClient && s.clientRan && s.callbackKeys == [key] && s.received == []
  }

  lemma Answers(u: Setup, env: Env, key: Key)
    requires Fine(env, key) && u.asked != Unknown
    ensures Answered(u, Step(u, Answering(u), ToServer(Signed(u.clientAddress, Challenge(u.challenge)), env)), key)
  {
  }

  lemma Receives(u: Setup, s: Session, env: Env, key: Key)
    requires Answered(u, s, key) && u.asked != Unknown
    ensures var s' := Step(u, s, ToClient(KeyData(key), env));
            && s'.client == s'.server == Machine(END_OF_SESSION, NoError, 1) && s'.callbackKeys == s'.received == [key]
  {
  }

  lemma AnswerReached(u: Setup, key: Key, events: seq<Event>)
    requires u.asked != Unknown && |events| >= 5 && Run(u, events[..3]) == Challenged(u)
    requires events[3].ToClient? && events[3].data == Challenge(u.challenge) && Fine(events[3].env, key)
    requires events[4].ToServer? && events[4].data == Signed(u.clientAddress, Challenge(u.challenge))
    requires Fine(events[4].env, key)
    ensures Answered(u, Run(u, events[..5]), key)
  {
    RunNext(u, events, 3);
    RunNext(u, events, 4);
    Signs(u, events[3].env, key);
    Answers(u, events[4].env, key);
  }

  lemma ChallengeReached(u: Setup, key: Key, events: seq<Event>)
    requires |events| >= 3 && events[0].RunClient? && events[1].ToServer? && events[2].RunServer?
    requires Fine(events[0].env, key) && events[1].data == Request && Fine(events[2].env, key)
    ensures Run(u, events[..3]) == Challenged(u)
  {
    RequestReached(u, key, events);
    RunNext(u, events, 2);
    Challenges(u, events[2].env, key);
  }

  lemma RequestReached(u: Setup, key: Key, events: seq<Event>)
    requires |events| >= 2 && events[0].RunClient? && events[1].ToServer?
    requires Fine(events[0].env, key) && events[1].data == Request
    ensures Run(u, events[..2]) == REQUESTED
  {
    RunNext(u, events, 0);
    RunNext(u, events, 1);
    assert events[..0] == [];
    Requests(u, events[0].env, events[1].env, key);
  }

  /** With honest ends, successful calls and in-order delivery, both sessions end without error and the client's
      callback receives exactly the key that the server's callback returned. */
  lemma HandshakeCompletes(u: Setup, key: Key, envs: seq<Env>)
    requires u.asked != Unknown
    requires |envs| == 6 && forall env | env in envs :: Fine(env, key)
    ensures var s := Run(u, InOrder(u, key, envs));
            && s.client == s.server == Machine(END_OF_SESSION, NoError, 1)
            && s.callbackKeys == s.received == [key]
  {
    var events := InOrder(u, key, envs);
    assert forall k | 0 <= k < 6 :: Fine(envs[k], key);
    ChallengeReached(u, key, events);
    AnswerReached(u, key, events);
    RunNext(u, events, 5);
    Receives(u, Run(u, events[..5]), envs[5], key);
    assert events[..6] == events;
  }

  // ---- The session objects on a network ---------------------------------------------------------

  /** One session object at each end, driven by a sequence of events: the objects and the network end up
      as `Run` says. */
  method Drive(u: Setup, events: seq<Event>)
    returns (client: ClientSession, server: ServerSession, toServer: set<Content>, toClient: set<Content>)
    ensures fresh(client) && fresh(server)
    ensures var s := Run(u, events);
            && client.Data() == s.client && client.keys == s.received && server.Data() == s.server
            && toServer == s.toServer && toClient == s.toClient
  {
    client := new ClientSession(u.clientAddress, u.asked);
    server := new ServerSession(u.clientAddress, u.challenge, u.asked);
    toServer, toClient := {}, {};
    var clientRan, serverCreated, serverRan := false, false, false;
    for i := 0 to |events|
      invariant fresh(client) && client.self == u.clientAddress && client.asked == u.asked
      invariant fresh(server) && server.contact == u.clientAddress
      invariant server.challenge == u.challenge && server.asked == u.asked
      invariant var s := Run(u, events[..i]);
                && client.Data() == s.client && client.keys == s.received && server.Data() == s.server
                && toServer == s.toServer && toClient == s.toClient
                && clientRan == s.clientRan && serverCreated == s.serverCreated && serverRan == s.serverRan
    {
      RunNext(u, events, i);
      match events[i]
      case RunClient(env) =>
        if !clientRan {
          clientRan := true;
          var output := client.NextState(Nothing, env);
          toServer := toServer + Outputs(output);
        }
      case RunServer(env) =>
        if serverCreated && !serverRan {
          serverRan := true;
          var output := server.NextState(Nothing, env);
          toClient := toClient + Outputs(output);
        }
      case ToServer(data, env) =>
        if data in toServer {
          if serverCreated {
            var output := server.NextState(data, env);
            toClient := toClient + Outputs(output);
          } else if data == Request {
            serverCreated := true;
          }
        }
      case ToClient(data, env) =>
        if data in toClient && clientRan {
          var output := client.NextState(data, env);
          toServer := toServer + Outputs(output);
        }
    }
    assert events[..|events|] == events;
  }
}
