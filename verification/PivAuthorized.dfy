/**
 Runs of an accepted batch against a card that keeps its own management flag: the commands and
 answers exchanged, not the request list, decide what the card has authorized.
 */
module PivAuthorized {
  import opened Base
  import opened Sequence
  import opened PivManagement
  import opened PivBatch
  import opened PivScan
  import Compat
  import PivAccess

  // ----- Card

  /**
   Is the management key authenticated, was the last command a PIN verification, and does SELECT
   end the authentication? Firmware through 1.6.2 keeps it.
   */
  datatype Card = Card(management: bool, verified: bool, selectResets: bool)

  /** An authentication from before survives SELECT. */
  predicate Kept(card: Card) { card.management && !card.selectResets }

  /** Whether the card carried a command out, and what the host is told. */
  datatype Event = Event(applied: bool, response: Response)

  /** A success is only reported for a command that was carried out. */
  predicate Honest(e: Event) { e.response.sw == SUCCESS ==> e.applied }

  /** The second GENERAL AUTHENTICATE of either mode, for the management key. */
  predicate ProvesKey(c: Command) { c.ins == 0x87 && c.p2 == 0x9b && |c.data| > 4 }

  predicate ResetsRetries(c: Command) { c.ins == 0xfa }

  /** VERIFY of the PIN reference, with the PIN padded to eight bytes. */
  predicate VerifiesPin(c: Command) { c.ins == 0x20 && c.p1 == 0 && c.p2 == 0x80 && |c.data| == 8 }

  /** SELECT by name of the PIV application. */
  predicate Selects(c: Command) { c.ins == 0xa4 && c.p1 == 4 && c.data == [0xa0, 0x00, 0x00, 0x03, 0x08] }

  predicate ConfiguresAlgorithms(c: Command) { c.ins == 0xee && c.p1 == 2 }

  /** The commands a card carries out for an authenticated management key only, by instruction. */
  predicate NeedsManagement(c: Command) {
    || c.ins == 0x47 || c.ins == 0xfe // generate, import
    || c.ins == 0xdb // put data
    || c.ins == 0xf6 // move, delete
    || c.ins == 0xfa // reset retries
    || c.ins == 0xff // replace the management key
    || (c.ins == 0xf5 && c.p1 == 1) // set a container name
    || ConfiguresAlgorithms(c)
  }

  /** The instructions each request sends. */
  predicate MaySend(kind: Kind, c: Command) {
    match kind
    case AgreeSm2 => (c.ins == 0xf7 && c.p1 == 0) || UsesKey(c)
    case ReadMetadataDirectory => c.ins == 0xf7 && c.p1 == 1
    case ReadContainerName => c.ins == 0xf5 && c.p1 == 0
    case SetContainerName => c.ins == 0xf5 && c.p1 == 1
    case MoveKey => c.ins == 0xf6 && c.p1 != 0xff
    case DeleteKey => c.ins == 0xf6 && c.p1 == 0xff
    case ResetPinPukRetries => c.ins == 0xfa
    case SetAlgorithmConfig => c.ins == 0xee && c.p1 == 2
    case Attest => c.ins == 0xf9
    case VerifyPin => c.ins == 0x20 && c.p1 == 0
    case AuthenticateManagement => c.ins == 0x87 && c.p2 == 0x9b
    case Logout => c.ins == 0x20 && c.p1 == 0xff
    case ReadObject => c.ins == 0xcb
    case ReadCertificate => c.ins == 0xcb
    case WriteObject => c.ins == 0xdb
    case WriteCertificate => c.ins == 0xdb
    case DeleteCertificate => c.ins == 0xdb
    case SetManagementKey => c.ins == 0xff
    case GetMetadata => c.ins == 0xf7 && c.p1 == 0
    case ReadAlgorithmConfig => c.ins == 0xee && c.p1 == 1
    case GenerateKey => c.ins == 0x47
    case ImportKey => c.ins == 0xfe
    case Sign => UsesKey(c)
    case SignStreaming => UsesKey(c)
    case Decrypt => UsesKey(c)
    case Derive => UsesKey(c)
    case Decapsulate => UsesKey(c)
  }

  /** GENERAL AUTHENTICATE with a key slot; the management key has none. */
  predicate UsesKey(c: Command) { c.ins == 0x87 && c.p2 != 0x9b }

  /** A command of the given kind. */
  function Sample(kind: Kind): (c: Command)
    ensures MaySend(kind, c)
  {
    match kind
    case AgreeSm2 => Command.Command(0, 0x87, 0, 0x9d, [], Absent)
    case ReadMetadataDirectory => Command.Command(0, 0xf7, 1, 0, [], Absent)
    case ReadContainerName => Command.Command(0, 0xf5, 0, 0x9a, [], Absent)
    case SetContainerName => Command.Command(0, 0xf5, 1, 0x9a, [], Absent)
    case MoveKey => Command.Command(0, 0xf6, 0x9a, 0x9c, [], Absent)
    case DeleteKey => Command.Command(0, 0xf6, 0xff, 0x9c, [], Absent)
    case ResetPinPukRetries => Command.Command(0, 0xfa, 3, 3, [], Absent)
    case SetAlgorithmConfig => Command.Command(0, 0xee, 2, 0, [], Absent)
    case Attest => Command.Command(0, 0xf9, 0x9a, 0, [], Absent)
    case VerifyPin => Command.Command(0, 0x20, 0, 0x80, [], Absent)
    case AuthenticateManagement => Command.Command(0, 0x87, 3, 0x9b, [], Absent)
    case Logout => Command.Command(0, 0x20, 0xff, 0x80, [], Absent)
    case ReadObject => Command.Command(0, 0xcb, 0x3f, 0xff, [], Absent)
    case ReadCertificate => Command.Command(0, 0xcb, 0x3f, 0xff, [], Absent)
    case WriteObject => Command.Command(0, 0xdb, 0x3f, 0xff, [], Absent)
    case WriteCertificate => Command.Command(0, 0xdb, 0x3f, 0xff, [], Absent)
    case DeleteCertificate => Command.Command(0, 0xdb, 0x3f, 0xff, [], Absent)
    case SetManagementKey => Command.Command(0, 0xff, 0xff, 0xff, [], Absent)
    case GetMetadata => Command.Command(0, 0xf7, 0, 0x9a, [], Absent)
    case ReadAlgorithmConfig => Command.Command(0, 0xee, 1, 0, [], Absent)
    case GenerateKey => Command.Command(0, 0x47, 0, 0x9a, [], Absent)
    case ImportKey => Command.Command(0, 0xfe, 7, 0x9a, [], Absent)
    case _ => Command.Command(0, 0x87, 7, 0x9a, [], Absent)
  }

  /** The scan's table of mutations is exactly the requests with a command that needs the management key. */
  lemma MutationIsExact(kind: Kind)
    ensures Mutation(kind) <==> exists c :: MaySend(kind, c) && NeedsManagement(c)
  {
    if Mutation(kind) {
      assert MaySend(kind, Sample(kind)) && NeedsManagement(Sample(kind));
    }
  }

  function CardAfter(card: Card, c: Command, e: Event): Card {
    Card(
      if e.applied && ProvesKey(c) then true
      else if e.applied && (ResetsRetries(c) || (Selects(c) && card.selectResets)) then false
      else card.management,
      e.applied && VerifiesPin(c),
      card.selectResets)
  }

  function Answers(events: seq<Event>): (r: seq<Response>)
    ensures |r| == |events|
    ensures forall i :: 0 <= i < |r| ==> r[i] == events[i].response
  {
    seq(|events|, i requires 0 <= i < |events| => events[i].response)
  }

  /** The card after a run of a machine, in step with `Solo` over the answers of the events. */
  function CardRun<S, T>(next: Next<S, Command, T>, s: S, input: Option<Response>, events: seq<Event>, card: Card): Card
    decreases events
  {
    var (s', r) := next(s, input);
    if r.Err? || r.value.Done? || events == [] then card
    else
      CardRun(next, s', Some(events[0].response), events[1..], CardAfter(card, r.value.command, events[0]))
  }

  // ----- The machines of the requests that matter to the flag

  /** The machine of a request; those that neither authenticate, verify nor reset stay abstract. */
  datatype Machine<S> =
    | Authenticating(m: Management)
    | Verifying(pin: PivAccess.Pin, stage: nat)
    | Resetting(pinRetries: Byte, pukRetries: Byte, stage: nat)
    | Other(kind: Kind, inner: S)

  /** The machines left abstract, by kind: `next` of each. */
  type Others<!S, !T> = (Kind, S, Option<Response>) -> (S, Result<Action<Command, T>>)

  datatype Item<T> = UnitItem | MutationItem | OtherItem(value: T)

  function ResetCommand(pinRetries: Byte, pukRetries: Byte): Command {
    Command.Command(0, 0xfa, pinRetries, pukRetries, [], Absent)
  }

  /** A machine of one command: send it, then judge the answer once. */
  function OneCommand<T>(stage: nat, c: Command, judge: Response -> Result<T>, response: Option<Response>)
    : (nat, Result<Action<Command, T>>)
  {
    match response
    case None => if stage == 0 then (1, Ok(Send(c))) else (stage, Err(Fail(ProtocolViolation)))
    case Some(a) =>
      if stage == 0 then (stage, Err(Fail(ProtocolViolation)))
      else if stage > 1 then (stage, Err(Fail(OperationStateError)))
      else
        var r := judge(a);
        (2, if r.Err? then Err(r.error) else Ok(Done(r.value)))
  }

  function JudgeVerify<T>(a: Response): Result<Item<T>> {
    if a.sw != SUCCESS then Err(StatusError(a.sw, Authentication, true))
    else if a.data != [] then Err(FailAt(InvalidResponse, Authentication))
    else Ok(UnitItem)
  }

  function JudgeReset<T>(a: Response): Result<Item<T>> {
    if a.sw != SUCCESS then Err(StatusError(a.sw, Phase.Command, false))
    else if a.data != [] then Err(Malformed())
    else Ok(MutationItem)
  }

  function MachineNext<S, T>(sub: Others<S, T>, machine: Machine<S>, response: Option<Response>)
    : (Machine<S>, Result<Action<Command, Item<T>>>)
  {
    match machine
    case Authenticating(m) =>
      var (m', r) := ManagementNext(m, response);
      (Authenticating(m'),
       if r.Err? then Err(r.error) else if r.value.Send? then Ok(Send(r.value.command)) else Ok(Done(UnitItem)))
    case Verifying(pin, stage) =>
      var (stage', r) := OneCommand(stage, PivAccess.VerifyPin(pin), a => JudgeVerify(a), response);
      (Verifying(pin, stage'), r)
    case Resetting(pins, puks, stage) =>
      var (stage', r) := OneCommand(stage, ResetCommand(pins, puks), a => JudgeReset(a), response);
      (Resetting(pins, puks, stage'), r)
    case Other(kind, inner) =>
      var (inner', r) := sub(kind, inner, response);
      (Other(kind, inner'),
       if r.Err? then Err(r.error) else if r.value.Send? then Ok(Send(r.value.command))
       else Ok(Done(OtherItem(r.value.output))))
  }

  function MachineStep<S, T>(sub: Others<S, T>): Next<Machine<S>, Command, Item<T>> {
    (machine, response) => MachineNext(sub, machine, response)
  }

  /** The machine that the batch prepares for a request of this kind. */
  ghost predicate Prepares<S>(kind: Kind, machine: Machine<S>) {
    match kind
    case AuthenticateManagement => machine.Authenticating? && machine.m.stage == 0 && ValidAuth(machine.m.auth)
    case VerifyPin => machine.Verifying? && machine.stage == 0
    case ResetPinPukRetries => machine.Resetting? && machine.stage == 0
    case _ => machine.Other? && machine.kind == kind
  }

  /** The abstract machines keep to the instructions of their requests. */
  ghost predicate Obedient<S(!new), T(!new)>(sub: Others<S, T>) {
    forall kind, s, response ::
      var r := sub(kind, s, response).1;
      r.Ok? && r.value.Send? ==> MaySend(kind, r.value.command)
  }

  ghost predicate AllPrepared<S>(requests: seq<Request<Machine<S>>>, machines: seq<Machine<S>>) {
    && |machines| == |requests|
    && forall i :: 0 <= i < |requests| ==>
         requests[i].prepared == Ok(machines[i]) && Prepares(requests[i].kind, machines[i])
  }

  /** The PIN and the retry requests complete exactly on an empty success, and use up that one answer. */
  lemma RequestCompletesIff<S(!new), T(!new)>(sub: Others<S, T>, machine: Machine<S>, answers: seq<Response>)
    requires (machine.Verifying? || machine.Resetting?) && machine.stage == 0
    ensures var p := Solo(MachineStep(sub), machine, None, answers);
            && (p.Finished? <==> answers != [] && answers[0] == Response([], 0x9000))
            && (p.Finished? ==> p.rest == answers[1..])
            && (answers == [] ==> p.Pending?)
  {
    hide Solo, StatusError;
    var step := MachineStep(sub);
    var sent := MachineNext(sub, machine, None).0;
    SoloUnfold(step, machine, None, answers);
    if answers != [] {
      SoloUnfold(step, sent, Some(answers[0]), answers[1..]);
    }
  }

  // ----- The invariant

  ghost predicate NoReset<S>(requests: seq<Request<Machine<S>>>, i: nat)
    requires i <= |requests|
  {
    forall j :: 0 <= j < i ==> requests[j].kind != ResetPinPukRetries
  }

  /**
   The card's flag in front of request `i`: what the list earned, or what the card held before
   the first request and no retry reset has selected.
   */
  ghost predicate FlagHeld<S>(requests: seq<Request<Machine<S>>>, i: nat, card: Card, before: bool)
    requires i <= |requests|
  {
    card.management <==> FlagAfter(requests, i) || (before && NoReset(requests, i))
  }

  ghost predicate VerifiedBefore<S>(requests: seq<Request<Machine<S>>>, i: nat, card: Card)
    requires i <= |requests|
  {
    i > 0 && requests[i - 1].kind == VerifyPin ==> card.verified
  }

  /** Between two requests: nothing has been sent since request `i - 1` completed. */
  ghost predicate Between<S, T>(
    requests: seq<Request<Machine<S>>>, machines: seq<Machine<S>>, st: BatchState<Machine<S>, Item<T>>, card: Card, before: bool)
  {
    && |st.items| <= |requests| == |machines| && st.current.None? && st.pending == machines[|st.items|..]
    && FlagHeld(requests, |st.items|, card, before) && VerifiedBefore(requests, |st.items|, card)
  }

  /** The machine at work, and what its outstanding command can do to the card. */
  ghost predicate AtWork<S>(kind: Kind, machine: Machine<S>, c: Command) {
    MaySend(kind, c) && match kind
    case AuthenticateManagement =>
      && machine.Authenticating? && ValidAuth(machine.m.auth)
      && ((machine.m.stage == 1 && !ProvesKey(c)) || (machine.m.stage == 2 && ProvesKey(c)))
    case VerifyPin => machine.Verifying? && machine.stage == 1 && VerifiesPin(c)
    case ResetPinPukRetries => machine.Resetting? && machine.stage == 1
    case _ => machine.Other? && machine.kind == kind
  }

  /** Command `c` of request `|st.items|` is waiting for its answer. */
  ghost predicate Waiting<S, T>(
    requests: seq<Request<Machine<S>>>, machines: seq<Machine<S>>, st: BatchState<Machine<S>, Item<T>>,
    c: Command, card: Card, before: bool)
  {
    var i := |st.items|;
    && i < |requests| == |machines| && st.current.Some? && st.pending == machines[i + 1..]
    && AtWork(requests[i].kind, st.current.value, c)
    && FlagHeld(requests, i, card, before)
    && (requests[i].kind == ResetPinPukRetries ==> VerifiedBefore(requests, i, card))
  }

  // ----- One call

  /** The first command of a fresh machine. */
  lemma FirstCommand<S(!new), T(!new)>(sub: Others<S, T>, kind: Kind, machine: Machine<S>)
    requires Prepares(kind, machine) && Obedient(sub)
    ensures var (machine', r) := MachineNext(sub, machine, None);
            && (r.Ok? && r.value.Send? ==> AtWork(kind, machine', r.value.command))
            && (r.Ok? && r.value.Done? ==> kind !in {AuthenticateManagement, VerifyPin, ResetPinPukRetries})
  {
    hide ManagementNext, FirstMessage, ValidAuth;
    if kind == AuthenticateManagement {
      FirstStep(machine.m.auth);
      FirstMessageProvesNothing(machine.m.auth);
    } else if kind == VerifyPin {
      assert |PivAccess.VerifyPin(machine.pin).data| == 8;
    }
  }

  lemma FirstMessageProvesNothing(auth: Auth)
    ensures MaySend(AuthenticateManagement, FirstMessage(auth)) && !ProvesKey(FirstMessage(auth))
  {
  }

  lemma SecondMessageProves(auth: Auth, a: Response)
    requires ValidAuth(auth) && Opening(auth, a)
    ensures var c := SecondMessage(auth, a); MaySend(AuthenticateManagement, c) && ProvesKey(c)
  {
    assert Block(auth.key.algorithm, a.data[4..]);
  }

  /** What the answer to an outstanding command does to machine and card. */
  lemma Answered<S(!new), T(!new)>(
    sub: Others<S, T>, kind: Kind, machine: Machine<S>, c: Command, card: Card, e: Event)
    requires AtWork(kind, machine, c) && Obedient(sub) && Honest(e)
    ensures var (machine', r) := MachineNext(sub, machine, Some(e.response));
            var card' := CardAfter(card, c, e);
            && (r.Ok? && r.value.Send? ==>
                  && kind !in {VerifyPin, ResetPinPukRetries}
                  && AtWork(kind, machine', r.value.command) && card'.management == card.management)
            && (r.Ok? && r.value.Done? ==>
                  && (kind == VerifyPin ==> card'.verified)
                  && card'.management == if kind == AuthenticateManagement then true
                                         else if kind == ResetPinPukRetries then false
                                         else card.management)
  {
    hide ManagementNext, Opening, Closing, SecondMessage;
    if kind == AuthenticateManagement {
      var auth := machine.m.auth;
      if machine.m.stage == 1 {
        SecondStep(auth, e.response);
        if Opening(auth, e.response) {
          SecondMessageProves(auth, e.response);
        }
      } else {
        ThirdStep(auth, e.response);
        ClosingIsSuccess(auth, e.response);
      }
    }
  }

  lemma ClosingIsSuccess(auth: Auth, a: Response)
    requires ValidAuth(auth)
    ensures Closing(auth, a) ==> a.sw == SUCCESS
  {
  }

  // ----- One call of the batch

  /** Request `i` is complete: what it earned is on the card. */
  lemma FlagAdvances<S>(requests: seq<Request<Machine<S>>>, i: nat, card: Card, card': Card, before: bool)
    requires i < |requests| && FlagHeld(requests, i, card, before)
    requires card'.management == if requests[i].kind == AuthenticateManagement then true
                                 else if requests[i].kind == ResetPinPukRetries then false
                                 else card.management
    ensures FlagHeld(requests, i + 1, card', before)
  {
  }

  lemma SameFlag<S>(requests: seq<Request<Machine<S>>>, i: nat, card: Card, card': Card, before: bool)
    requires i <= |requests| && FlagHeld(requests, i, card, before) && card'.management == card.management
    ensures FlagHeld(requests, i, card', before)
  {
  }

  /** From between two requests, the call ends with a command of a later request outstanding, or not at all. */
  lemma {:induction false} CallFromBetween<S(!new), T(!new)>(
    sub: Others<S, T>, size: Item<T> -> nat, requests: seq<Request<Machine<S>>>, machines: seq<Machine<S>>,
    st: BatchState<Machine<S>, Item<T>>, card: Card, before: bool)
    requires Obedient(sub) && AllPrepared(requests, machines) && Between(requests, machines, st, card, before)
    ensures var (st', r) := BatchNext(MachineStep(sub), size, st, None);
            r.Ok? && r.value.Send? ==> Waiting(requests, machines, st', r.value.command, card, before)
    decreases |st.pending|
  {
    hide Obedient, Prepares, AtWork, MachineNext, FlagAfter, FlagHeld, NoReset;
    if st.pending != [] {
      var i := |st.items|;
      assert st.pending[0] == machines[i] && st.pending[1..] == machines[i + 1..];
      FirstCommand(sub, requests[i].kind, machines[i]);
      var (machine, r) := MachineNext(sub, machines[i], None);
      if r.Ok? && r.value.Done? {
        var bytes := st.resultBytes + size(r.value.output);
        if bytes <= USIZE_MAX && bytes <= st.maxResultBytes {
          var st' := st.(pending := st.pending[1..], items := st.items + [r.value.output], resultBytes := bytes);
          FlagAdvances(requests, i, card, card, before);
          CallFromBetween(sub, size, requests, machines, st', card, before);
        }
      }
    }
  }

  /** An honest answer to the outstanding command keeps the invariant. */
  lemma CallFromWaiting<S(!new), T(!new)>(
    sub: Others<S, T>, size: Item<T> -> nat, requests: seq<Request<Machine<S>>>, machines: seq<Machine<S>>,
    st: BatchState<Machine<S>, Item<T>>, c: Command, card: Card, before: bool, e: Event)
    requires Obedient(sub) && AllPrepared(requests, machines) && Honest(e)
    requires Waiting(requests, machines, st, c, card, before)
    ensures var (st', r) := BatchNext(MachineStep(sub), size, st, Some(e.response));
            r.Ok? && r.value.Send? ==>
              Waiting(requests, machines, st', r.value.command, CardAfter(card, c, e), before)
  {
    hide Obedient, Prepares, AllPrepared, AtWork, MachineNext, FlagAfter, FlagHeld, NoReset, CardAfter;
    var i, card' := |st.items|, CardAfter(card, c, e);
    Answered(sub, requests[i].kind, st.current.value, c, card, e);
    var (machine, r) := MachineNext(sub, st.current.value, Some(e.response));
    if r.Ok? && r.value.Send? {
      SameFlag(requests, i, card, card', before);
    } else if r.Ok? {
      var bytes := st.resultBytes + size(r.value.output);
      if bytes <= USIZE_MAX && bytes <= st.maxResultBytes {
        var st' := st.(current := None, items := st.items + [r.value.output], resultBytes := bytes);
        FlagAdvances(requests, i, card, card', before);
        CallFromBetween(sub, size, requests, machines, st', card', before);
      }
    }
  }

  // ----- Runs of the batch

  lemma {:induction false} RunFromCall<S(!new), T(!new)>(
    sub: Others<S, T>, size: Item<T> -> nat, requests: seq<Request<Machine<S>>>, machines: seq<Machine<S>>,
    st: BatchState<Machine<S>, Item<T>>, input: Option<Response>, events: seq<Event>, card: Card, before: bool)
    requires Obedient(sub) && AllPrepared(requests, machines) && forall e :: e in events ==> Honest(e)
    requires var (st', r) := BatchNext(MachineStep(sub), size, st, input);
             r.Ok? && r.value.Send? ==> Waiting(requests, machines, st', r.value.command, card, before)
    ensures var step := BatchStep(MachineStep(sub), size);
            var p := Solo(step, st, input, Answers(events));
            p.Pending? ==>
              Waiting(requests, machines, p.state, p.command, CardRun(step, st, input, events, card), before)
    decreases events
  {
    hide Obedient, AllPrepared, Waiting, BatchNext, CardAfter, Solo;
    var step := BatchStep(MachineStep(sub), size);
    var (st', r) := step(st, input);
    SoloUnfold(step, st, input, Answers(events));
    if r.Ok? && r.value.Send? && events != [] {
      var e := events[0];
      assert Answers(events)[1..] == Answers(events[1..]);
      CallFromWaiting(sub, size, requests, machines, st', r.value.command, card, before, e);
      RunFromCall(sub, size, requests, machines, st', Some(e.response), events[1..],
                  CardAfter(card, r.value.command, e), before);
    }
  }

  /** Every run of the batch, from a card in any condition. */
  lemma BatchRuns<S(!new), T(!new)>(
    sub: Others<S, T>, size: Item<T> -> nat, limit: nat, requests: seq<Request<Machine<S>>>,
    machines: seq<Machine<S>>, events: seq<Event>, card: Card)
    requires Obedient(sub) && AllPrepared(requests, machines) && forall e :: e in events ==> Honest(e)
    ensures var step := BatchStep(MachineStep(sub), size);
            var start: BatchState<Machine<S>, Item<T>> := BatchStart(machines, limit);
            var p := Solo(step, start, None, Answers(events));
            p.Pending? ==>
              Waiting(requests, machines, p.state, p.command, CardRun(step, start, None, events, card), card.management)
  {
    hide Obedient, Waiting, BatchNext, Solo;
    var start: BatchState<Machine<S>, Item<T>> := BatchStart(machines, limit);
    assert machines[0..] == machines;
    CallFromBetween(sub, size, requests, machines, start, card, card.management);
    RunFromCall(sub, size, requests, machines, start, None, events, card, card.management);
  }

  // ----- Runs behind SELECT

  lemma CardRunUnfold<S(!new), T(!new)>(
    next: Next<S, Command, T>, s: S, input: Option<Response>, events: seq<Event>, card: Card)
    ensures var (s', r) := next(s, input);
            CardRun(next, s, input, events, card)
            == if r.Err? || r.value.Done? || events == [] then card
               else CardRun(next, s', Some(events[0].response), events[1..], CardAfter(card, r.value.command, events[0]))
  {
  }

  /** The wrapper adds at most an expected length, which the card's flag does not depend on. */
  lemma {:induction false} CardSeesTarget<S(!new), T(!new)>(
    sub: Next<S, Command, T>, explicitLe: bool, s: S, input: Option<Response>, events: seq<Event>, card: Card)
    ensures CardRun(PivAccess.SelectedStep(sub), PivAccess.Running(explicitLe, s), input, events, card)
         == CardRun(sub, s, input, events, card)
    decreases events
  {
    hide CardRun;
    var (s', r) := sub(s, input);
    CardRunUnfold(sub, s, input, events, card);
    CardRunUnfold(PivAccess.SelectedStep(sub), PivAccess.Running(explicitLe, s), input, events, card);
    if r.Ok? && r.value.Send? && events != [] {
      CardSeesTarget(sub, explicitLe, s', Some(events[0].response), events[1..],
                     CardAfter(card, r.value.command, events[0]));
    }
  }

  /** Past SELECT, the wrapped run is the target's own run on a card that has kept or lost its authentication. */
  lemma BehindSelect<S(!new), T(!new)>(
    sub: Next<S, Command, T>, explicitLe: bool, target: S, events: seq<Event>, card: Card) returns (selected: Card)
    requires forall e :: e in events ==> Honest(e)
    ensures var step := PivAccess.SelectedStep(sub);
            var st := PivAccess.Wrap(PivAccess.Unauthenticated, explicitLe, target);
            var p := Solo(step, st, None, Answers(events));
            p.Pending? && p.state.stage == PivAccess.Target ==>
              && events != [] && selected.management == Kept(card)
              && p == PivAccess.Lifted(explicitLe, Solo(sub, target, None, Answers(events[1..])))
              && CardRun(step, st, None, events, card) == CardRun(sub, target, None, events[1..], selected)
  {
    hide Solo, CardRun, PivAccess.SelectedNext;
    var access := PivAccess.Unauthenticated;
    var step, st := PivAccess.SelectedStep(sub), PivAccess.Wrap(access, explicitLe, target);
    var select := PivAccess.Before(access, explicitLe, target, 0);
    SelectIsFirst(sub, explicitLe, target);
    SoloUnfold(step, st, None, Answers(events));
    CardRunUnfold(step, st, None, events, card);
    selected := card;
    if events != [] {
      var e, left := events[0], events[1..];
      assert e in events && Honest(e);
      selected := CardAfter(card, PivAccess.WithLe(explicitLe, PivAccess.SelectPiv), e);
      assert Answers(events)[1..] == Answers(left);
      PivAccess.PassGate(sub, access, explicitLe, target, 0, e.response);
      SoloUnfold(step, select, Some(e.response), Answers(left));
      if e.response.sw == SUCCESS {
        var running := PivAccess.Running(explicitLe, target);
        SameFirstStep(step, select, Some(e.response), running, None, Answers(left));
        CardRunUnfold(step, select, Some(e.response), left, selected);
        CardRunUnfold(step, running, None, left, selected);
        PivAccess.TargetRun(sub, explicitLe, target, None, Answers(left));
        CardSeesTarget(sub, explicitLe, target, None, left, selected);
      }
    }
  }

  lemma SelectIsFirst<S(!new), T(!new)>(sub: Next<S, Command, T>, explicitLe: bool, target: S)
    ensures var access := PivAccess.Unauthenticated;
            PivAccess.SelectedNext(sub, PivAccess.Wrap(access, explicitLe, target), None)
            == (PivAccess.Before(access, explicitLe, target, 0),
                Ok(Send(PivAccess.WithLe(explicitLe, PivAccess.SelectPiv))))
  {
  }

  // ----- Results

  /** A batch as it runs: behind SELECT and nothing else. */
  function Wrapped<S, T>(explicitLe: bool, machines: seq<Machine<S>>, limit: nat)
    : PivAccess.Selected<BatchState<Machine<S>, Item<T>>>
  {
    PivAccess.Wrap(PivAccess.Unauthenticated, explicitLe, BatchStart(machines, limit))
  }

  function WrappedStep<S, T>(sub: Others<S, T>, size: Item<T> -> nat)
    : Next<PivAccess.Selected<BatchState<Machine<S>, Item<T>>>, Command, Results<Item<T>>>
  {
    PivAccess.SelectedStep(BatchStep(MachineStep(sub), size))
  }

  /**
   Where any list stands on any card: the flag the card keeps from its own exchanges is set
   exactly when the list earned it, or when the card kept an earlier authentication over SELECT
   and no retry reset has cleared it since.
   */
  lemma CardFlagIsEarned<S(!new), T(!new)>(
    sub: Others<S, T>, size: Item<T> -> nat, limit: nat, requests: seq<Request<Machine<S>>>,
    machines: seq<Machine<S>>, explicitLe: bool, events: seq<Event>, card: Card)
    requires Obedient(sub) && AllPrepared(requests, machines) && forall e :: e in events ==> Honest(e)
    ensures var step, start := WrappedStep(sub, size), Wrapped(explicitLe, machines, limit);
            var p, after := Solo(step, start, None, Answers(events)), CardRun(step, start, None, events, card);
            p.Pending? && p.state.stage == PivAccess.Target ==>
              var st := p.state.target;
              var i := |st.items|;
              && i < |requests| && |st.pending| == |requests| - i - 1
              && (after.management <==> ManagementHeld(requests, i) || (Kept(card) && NoReset(requests, i)))
              && MaySend(requests[i].kind, p.command)
              && (requests[i].kind == ResetPinPukRetries && i > 0 && requests[i - 1].kind == VerifyPin ==> after.verified)
  {
    hide Obedient, AllPrepared, Solo, CardRun, ManagementHeld, BatchStep, MachineStep;
    var start: BatchState<Machine<S>, Item<T>> := BatchStart(machines, limit);
    var selected := BehindSelect(BatchStep(MachineStep(sub), size), explicitLe, start, events, card);
    if events != [] {
      BatchRuns(sub, size, limit, requests, machines, events[1..], selected);
    }
    var p := Solo(WrappedStep(sub, size), Wrapped(explicitLe, machines, limit), None, Answers(events));
    if p.Pending? && p.state.stage == PivAccess.Target {
      FlagMeansHeld(requests, |p.state.target.items|);
    }
  }

  /**
   An accepted batch is authorized by the card: whatever is answered, a command that needs the
   management key is outstanding only while the card itself holds it authenticated, a retry reset
   only directly after a PIN verification the card carried out, and an algorithm configuration
   write only when no request follows. All three are said of the command sent.
   */
  lemma AcceptedBatchIsAuthorized<S(!new), T(!new)>(
    sub: Others<S, T>, size: Item<T> -> nat, limit: nat, requests: seq<Request<Machine<S>>>,
    machines: seq<Machine<S>>, explicitLe: bool, events: seq<Event>, card: Card)
    requires Ordered(requests)
    requires Obedient(sub) && AllPrepared(requests, machines) && forall e :: e in events ==> Honest(e)
    ensures var step, start := WrappedStep(sub, size), Wrapped(explicitLe, machines, limit);
            var p, after := Solo(step, start, None, Answers(events)), CardRun(step, start, None, events, card);
            p.Pending? && p.state.stage == PivAccess.Target ==>
              && |p.state.target.items| < |requests|
              && (Mutation(requests[|p.state.target.items|].kind) ==> after.management)
              && (NeedsManagement(p.command) ==> after.management)
              && (ResetsRetries(p.command) ==> after.verified)
              && (ConfiguresAlgorithms(p.command) ==> p.state.target.pending == [])
  {
    hide Obedient, AllPrepared, Solo, CardRun, ManagementHeld, Mutation;
    CardFlagIsEarned(sub, size, limit, requests, machines, explicitLe, events, card);
    var p := Solo(WrappedStep(sub, size), Wrapped(explicitLe, machines, limit), None, Answers(events));
    if p.Pending? && p.state.stage == PivAccess.Target {
      var i := |p.state.target.items|;
      assert OrderedAt(requests, i);
      MutationIsExact(requests[i].kind);
      CommandTellsKind(requests[i].kind, p.command);
    }
  }

  lemma CommandTellsKind(kind: Kind, c: Command)
    requires MaySend(kind, c)
    ensures ResetsRetries(c) ==> kind == ResetPinPukRetries
    ensures ConfiguresAlgorithms(c) ==> kind == SetAlgorithmConfig
  {
  }

  /**
   The rule is exact: where a list breaks it, the mutation's command finds the card unauthorized,
   unless the card kept an earlier authentication over SELECT and no retry reset came before.
   */
  lemma BrokenRuleIsUnauthorized<S(!new), T(!new)>(
    sub: Others<S, T>, size: Item<T> -> nat, limit: nat, requests: seq<Request<Machine<S>>>,
    machines: seq<Machine<S>>, explicitLe: bool, events: seq<Event>, card: Card)
    requires Obedient(sub) && AllPrepared(requests, machines) && forall e :: e in events ==> Honest(e)
    requires var p := Solo(WrappedStep(sub, size), Wrapped(explicitLe, machines, limit), None, Answers(events));
             && p.Pending? && p.state.stage == PivAccess.Target
             && |p.state.target.items| < |requests| && Mutation(requests[|p.state.target.items|].kind)
             && !ManagementHeld(requests, |p.state.target.items|)
    ensures !Ordered(requests)
    ensures var after := CardRun(WrappedStep(sub, size), Wrapped(explicitLe, machines, limit), None, events, card);
            var p := Solo(WrappedStep(sub, size), Wrapped(explicitLe, machines, limit), None, Answers(events));
            after.management <==> Kept(card) && NoReset(requests, |p.state.target.items|)
  {
    hide Obedient, AllPrepared, Solo, CardRun, ManagementHeld, Mutation;
    CardFlagIsEarned(sub, size, limit, requests, machines, explicitLe, events, card);
    var p := Solo(WrappedStep(sub, size), Wrapped(explicitLe, machines, limit), None, Answers(events));
    assert !OrderedAt(requests, |p.state.target.items|);
  }

  /** On firmware whose SELECT is known to end authentication, the flag is exactly what the list earned. */
  lemma FirmwareMakesRuleExact<S(!new), T(!new)>(
    sub: Others<S, T>, size: Item<T> -> nat, limit: nat, requests: seq<Request<Machine<S>>>,
    machines: seq<Machine<S>>, explicitLe: bool, events: seq<Event>, card: Card, profile: Compat.Profile)
    requires Obedient(sub) && AllPrepared(requests, machines) && forall e :: e in events ==> Honest(e)
    requires Compat.CapabilityOf(profile, Compat.PivSelectResetsAuthentication) == Compat.Supported ==> card.selectResets
    ensures var step, start := WrappedStep(sub, size), Wrapped(explicitLe, machines, limit);
            var p, after := Solo(step, start, None, Answers(events)), CardRun(step, start, None, events, card);
            && p.Pending? && p.state.stage == PivAccess.Target
            && Compat.CapabilityOf(profile, Compat.PivSelectResetsAuthentication) == Compat.Supported ==>
              && |p.state.target.items| < |requests|
              && (after.management <==> ManagementHeld(requests, |p.state.target.items|))
  {
    hide Obedient, AllPrepared, Solo, CardRun, ManagementHeld, Compat.CapabilityOf;
    CardFlagIsEarned(sub, size, limit, requests, machines, explicitLe, events, card);
  }

  // ----- A card that keeps its authentication

  /** Machines that send their request's command over and over. */
  const Sender: Others<(), ()> := (kind, s, response) => (s, Ok(Send(Sample(kind))))

  /** One write and nothing before it: a list that the scan refuses. */
  const LoneWrite: seq<Request<Machine<()>>> := [Request(WriteObject, 0, Ok(Other(WriteObject, ())))]

  /** After SELECT alone, a card of the old firmware with an earlier session is still authorized. */
  lemma EarlierSessionSurvives()
    ensures var step, start := WrappedStep(Sender, (_: Item<()>) => 0), Wrapped(false, [Other(WriteObject, ())], 0);
            var card, events := Card(true, false, false), [Event(true, Response([], SUCCESS))];
            var p := Solo(step, start, None, Answers(events));
            && !Ordered(LoneWrite)
            && p.Pending? && p.state.stage == PivAccess.Target && p.command.ins == 0xdb && NeedsManagement(p.command)
            && CardRun(step, start, None, events, card).management
  {
    var size := (_: Item<()>) => 0;
    var machines: seq<Machine<()>> := [Other(WriteObject, ())];
    var events := [Event(true, Response([], SUCCESS))];
    var batch := BatchStep(MachineStep(Sender), size);
    var start: BatchState<Machine<()>, Item<()>> := BatchStart(machines, 0);
    assert !OrderedAt(LoneWrite, 0);
    assert Answers(events) == [Response([], SUCCESS)];
    assert Solo(batch, start, None, []) == Pending(BatchState([], Some(Other(WriteObject, ())), [], None, 0, 0), Sample(WriteObject)) by {
      assert machines[1..] == [];
    }
    hide Solo, CardRun, BatchStep;
    PivAccess.AccessIsGated(batch, PivAccess.Unauthenticated, false, start, Answers(events));
    assert PivAccess.Opened(PivAccess.Unauthenticated, Answers(events), 1);
    CardFlagIsEarned(Sender, size, 0, LoneWrite, machines, false, events, Card(true, false, false));
  }
}
