/** SELECT and explicit authentication around a dependent PIV machine. */
module PivAccess {
  import opened Base
  import opened Sequence
  import opened PivManagement
  import opened PivBatch

  /** A PIN as either constructor of the source admits it. */
  type Pin = p: Bytes | 1 <= |p| <= 8 witness [0]

  datatype Access =
    | Existing
    | Unauthenticated
    | PinOnly(pin: Pin)
    | ManagementOnly(auth: Auth)
    | PinAndManagement(pin: Pin, auth: Auth)

  ghost predicate ValidAccess(access: Access) {
    access.ManagementOnly? || access.PinAndManagement? ==> ValidAuth(access.auth)
  }

  const SelectPiv: Command := Command.Command(0, 0xa4, 4, 0, [0xa0, 0, 0, 3, 8], Absent)

  function Padded(pin: Pin): Bytes { pin + seq(8 - |pin|, _ => 0xff) }

  function VerifyPin(pin: Pin): Command { Command.Command(0, 0x20, 0, 0x80, Padded(pin), Absent) }

  datatype Stage = Begin | Selecting | Managing | Verifying | Target

  datatype Selected<S> = Selected(
    stage: Stage, explicitLe: bool, management: Option<Management>, pin: Option<Pin>, target: S)

  /** Legacy firmware needs a written Le where none was asked for. */
  function WithLe(explicitLe: bool, c: Command): Command {
    if explicitLe && c.le == Absent then c.(le := Exact(256)) else c
  }

  function Fixed<T>(explicitLe: bool, r: Result<Action<Command, T>>): Result<Action<Command, T>> {
    if r.Ok? && r.value.Send? then Ok(Send(WithLe(explicitLe, r.value.command))) else r
  }

  type Answered<!S, !T> = (Selected<S>, Result<Action<Command, T>>)

  function RunTarget<S, T>(sub: Next<S, Command, T>, st: Selected<S>, response: Option<Response>): Answered<S, T> {
    var (s, r) := sub(st.target, response);
    (st.(target := s), r)
  }

  function TargetOrPin<S, T>(sub: Next<S, Command, T>, st: Selected<S>): Answered<S, T> {
    if st.pin.Some? then (st.(pin := None, stage := Verifying), Ok(Send(VerifyPin(st.pin.value))))
    else RunTarget(sub, st.(stage := Target), None)
  }

  function Manage<S, T>(sub: Next<S, Command, T>, st: Selected<S>, response: Option<Response>): Answered<S, T> {
    if st.management.None? then (st, Err(Fail(ProtocolViolation)))
    else
      var (m, r) := ManagementNext(st.management.value, response);
      if r.Err? then (st.(management := Some(m)), Err(r.error))
      else if r.value.Send? then (st.(management := Some(m)), Ok(Send(r.value.command)))
      else TargetOrPin(sub, st.(management := None))
  }

  function Dispatch<S, T>(sub: Next<S, Command, T>, st: Selected<S>, response: Option<Response>): Answered<S, T> {
    match st.stage
    case Begin => (st.(stage := Selecting), Ok(Send(SelectPiv)))
    case Selecting =>
      if response.None? then (st, Err(Fail(ProtocolViolation)))
      else if response.value.sw != SUCCESS then (st, Err(StatusError(response.value.sw, Select, false)))
      else if st.management.Some? then Manage(sub, st.(stage := Managing), None)
      else TargetOrPin(sub, st)
    case Managing => Manage(sub, st, response)
    case Verifying =>
      if response.None? then (st, Err(Fail(ProtocolViolation)))
      else if response.value.sw != SUCCESS then (st, Err(StatusError(response.value.sw, Authentication, true)))
      else if response.value.data != [] then (st, Err(FailAt(InvalidResponse, Authentication)))
      else RunTarget(sub, st.(stage := Target), None)
    case Target => RunTarget(sub, st, response)
  }

  /** One call of the wrapped machine. */
  function SelectedNext<S, T>(sub: Next<S, Command, T>, st: Selected<S>, response: Option<Response>): Answered<S, T> {
    var (st', r) := Dispatch(sub, st, response);
    (st', Fixed(st.explicitLe, r))
  }

  function SelectedStep<S, T>(sub: Next<S, Command, T>): Next<Selected<S>, Command, T> {
    (st, response) => SelectedNext(sub, st, response)
  }

  function AuthOf(access: Access): Option<Auth> {
    if access.ManagementOnly? || access.PinAndManagement? then Some(access.auth) else None
  }

  function PinOf(access: Access): Option<Pin> {
    if access.PinOnly? || access.PinAndManagement? then Some(access.pin) else None
  }

  /** `with_access`, once its preflight has passed. */
  function Wrap<S>(access: Access, explicitLe: bool, target: S): Selected<S> {
    Selected(
      if access.Existing? then Target else Begin, explicitLe,
      if AuthOf(access).Some? then Some(Management(AuthOf(access).value, 0)) else None, PinOf(access), target)
  }

  /** Progress of the target is visible only once the target runs. */
  function ProgressThrough<S, P>(st: Selected<S>, progress: S -> P): Option<P> {
    if st.stage == Target then Some(progress(st.target)) else None
  }

  class SelectedMachine<S, T> {
    const sub: Next<S, Command, T>
    const explicitLe: bool
    var stage: Stage
    var management: Option<Management>
    var pin: Option<Pin>
    var target: S

    constructor (sub: Next<S, Command, T>, access: Access, explicitLe: bool, target: S)
      ensures this.sub == sub && State() == Wrap(access, explicitLe, target)
    {
      this.sub, this.explicitLe, this.target := sub, explicitLe, target;
      stage := if access.Existing? then Target else Begin;
      management := if AuthOf(access).Some? then Some(Management(AuthOf(access).value, 0)) else None;
      pin := PinOf(access);
    }

    function State(): Selected<S>
      reads this
    {
      Selected(stage, explicitLe, management, pin, target)
    }

    method RunTargetNow(response: Option<Response>) returns (r: Result<Action<Command, T>>)
      modifies this
      ensures (State(), r) == RunTarget(sub, old(State()), response)
    {
      var (s, action) := sub(target, response);
      target := s;
      return action;
    }

    method TargetOrPinNow() returns (r: Result<Action<Command, T>>)
      modifies this
      ensures (State(), r) == TargetOrPin(sub, old(State()))
    {
      if pin.Some? {
        var taken := pin.value;
        pin, stage := None, Verifying;
        return Ok(Send(VerifyPin(taken)));
      }
      stage := Target;
      r := RunTargetNow(None);
    }

    method ManageNow(response: Option<Response>) returns (r: Result<Action<Command, T>>)
      modifies this
      ensures (State(), r) == Manage(sub, old(State()), response)
    {
      if management.None? {
        return Err(Fail(ProtocolViolation));
      }
      var (m, action) := ManagementNext(management.value, response);
      management := Some(m);
      if action.Err? {
        return Err(action.error);
      }
      if action.value.Send? {
        return Ok(Send(action.value.command));
      }
      management := None;
      r := TargetOrPinNow();
    }

    method DispatchNow(response: Option<Response>) returns (r: Result<Action<Command, T>>)
      modifies this
      ensures (State(), r) == Dispatch(sub, old(State()), response)
    {
      hide Manage, TargetOrPin, RunTarget;
      if (stage == Selecting || stage == Verifying) && response.None? {
        return Err(Fail(ProtocolViolation));
      }
      match stage {
        case Begin =>
          stage := Selecting;
          return Ok(Send(SelectPiv));
        case Selecting =>
          if response.value.sw != SUCCESS {
            return Err(StatusError(response.value.sw, Select, false));
          }
          if management.Some? {
            stage := Managing;
            r := ManageNow(None);
          } else {
            r := TargetOrPinNow();
          }
        case Managing =>
          r := ManageNow(response);
        case Verifying =>
          if response.value.sw != SUCCESS {
            return Err(StatusError(response.value.sw, Authentication, true));
          }
          if response.value.data != [] {
            return Err(FailAt(InvalidResponse, Authentication));
          }
          stage := Target;
          r := RunTargetNow(None);
        case Target =>
          r := RunTargetNow(response);
      }
    }

    method Next(response: Option<Response>) returns (r: Result<Action<Command, T>>)
      modifies this
      ensures (State(), r) == SelectedNext(sub, old(State()), response)
    {
      hide Dispatch;
      r := DispatchNow(response);
      if explicitLe && r.Ok? && r.value.Send? && r.value.command.le == Absent {
        r := Ok(Send(r.value.command.(le := Exact(256))));
      }
    }
  }

  // ----- The gate in front of the target

  /** One exchange before the target: which command goes out and which answer is good enough. */
  datatype Gate = SelectGate | OpeningGate(auth: Auth) | ClosingGate(auth: Auth) | PinGate(pin: Pin)

  /** SELECT, then the management authentication, then the PIN. */
  function Gates(access: Access): seq<Gate> {
    match access
    case Existing => []
    case Unauthenticated => [SelectGate]
    case PinOnly(pin) => [SelectGate, PinGate(pin)]
    case ManagementOnly(auth) => [SelectGate, OpeningGate(auth), ClosingGate(auth)]
    case PinAndManagement(pin, auth) => [SelectGate, OpeningGate(auth), ClosingGate(auth), PinGate(pin)]
  }

  ghost predicate ValidGate(g: Gate) {
    g.OpeningGate? || g.ClosingGate? ==> ValidAuth(g.auth)
  }

  ghost predicate Passes(g: Gate, a: Response)
    requires ValidGate(g)
  {
    match g
    case SelectGate => a.sw == SUCCESS
    case OpeningGate(auth) => Opening(auth, a)
    case ClosingGate(auth) => Closing(auth, a)
    case PinGate(_) => a == Response([], SUCCESS)
  }

  /** How the answer to a gate that it does not pass is reported. */
  function GateError(g: Gate, a: Response): Error {
    match g
    case SelectGate => StatusError(a.sw, Select, false)
    case OpeningGate(auth) => ManagementError(auth, 1, a)
    case ClosingGate(auth) => ManagementError(auth, 2, a)
    case PinGate(_) =>
      if a.sw != SUCCESS then StatusError(a.sw, Authentication, true) else FailAt(InvalidResponse, Authentication)
  }

  /** The management machine's own error. */
  function ManagementError(auth: Auth, stage: nat, a: Response): Error {
    var r := ManagementNext(Management(auth, stage), Some(a)).1;
    if r.Err? then r.error else Fail(OperationStateError)
  }

  /** The command of a gate; only the second management command depends on an earlier answer. */
  ghost function GateCommand(g: Gate, previous: Option<Response>): Command
    requires ValidGate(g)
    requires g.ClosingGate? ==> previous.Some? && Opening(g.auth, previous.value)
  {
    match g
    case SelectGate => SelectPiv
    case OpeningGate(auth) => FirstMessage(auth)
    case ClosingGate(auth) => SecondMessage(auth, previous.value)
    case PinGate(pin) => VerifyPin(pin)
  }

  /** The first `n` answers open the first `n` gates. */
  ghost predicate Opened(access: Access, answers: seq<Response>, n: nat)
    requires ValidAccess(access)
  {
    && n <= |answers| && n <= |Gates(access)|
    && forall i :: 0 <= i < n ==> Passes(Gates(access)[i], answers[i])
  }

  /** The machine while the answer to gate `i` is outstanding. */
  function Before<S>(access: Access, explicitLe: bool, target: S, i: nat): Selected<S>
    requires i < |Gates(access)|
  {
    match Gates(access)[i]
    case SelectGate => Wrap(access, explicitLe, target).(stage := Selecting)
    case OpeningGate(auth) => Selected(Managing, explicitLe, Some(Management(auth, 1)), PinOf(access), target)
    case ClosingGate(auth) => Selected(Managing, explicitLe, Some(Management(auth, 2)), PinOf(access), target)
    case PinGate(_) => Selected(Verifying, explicitLe, None, None, target)
  }

  function Running<S>(explicitLe: bool, target: S): Selected<S> {
    Selected(Target, explicitLe, None, None, target)
  }

  /** One gate: a good answer leads to the next gate or into the target, any other ends the run. */
  lemma PassGate<S(!new), T(!new)>(
    sub: Next<S, Command, T>, access: Access, explicitLe: bool, target: S, i: nat, a: Response)
    requires ValidAccess(access) && i < |Gates(access)|
    ensures var gates := Gates(access);
            var here := SelectedNext(sub, Before(access, explicitLe, target, i), Some(a));
            if !Passes(gates[i], a) then
              here.0.stage != Target && here.0.target == target && here.1 == Err(GateError(gates[i], a))
            else if i + 1 == |gates| then here == SelectedNext(sub, Running(explicitLe, target), None)
            else here == (Before(access, explicitLe, target, i + 1),
                          Ok(Send(WithLe(explicitLe, GateCommand(gates[i + 1], Some(a))))))
  {
    hide ManagementNext, Opening, Closing, SecondMessage, FirstMessage;
    match Gates(access)[i]
    case SelectGate =>
      if AuthOf(access).Some? {
        FirstStep(AuthOf(access).value);
      }
    case OpeningGate(auth) =>
      SecondStep(auth, a);
    case ClosingGate(auth) =>
      ThirdStep(auth, a);
    case PinGate(_) =>
  }

  /** A target run as it appears from outside the wrapper. */
  function Lifted<S, T>(explicitLe: bool, p: Progress<S, Command, T>): Progress<Selected<S>, Command, T> {
    match p
    case Pending(s, c) => Pending(Running(explicitLe, s), WithLe(explicitLe, c))
    case Finished(s, t, rest) => Finished(Running(explicitLe, s), t, rest)
    case Failed(s, e) => Failed(Running(explicitLe, s), e)
  }

  lemma {:induction false} TargetRun<S(!new), T(!new)>(
    sub: Next<S, Command, T>, explicitLe: bool, s: S, input: Option<Response>, answers: seq<Response>)
    ensures Solo(SelectedStep(sub), Running(explicitLe, s), input, answers)
         == Lifted(explicitLe, Solo(sub, s, input, answers))
    decreases answers
  {
    hide Solo;
    var (s', r) := sub(s, input);
    SoloUnfold(sub, s, input, answers);
    SoloUnfold(SelectedStep(sub), Running(explicitLe, s), input, answers);
    if answers != [] {
      TargetRun(sub, explicitLe, s', Some(answers[0]), answers[1..]);
    }
  }

  /** Where the wrapped machine stands after the answers: at a gate, in the target, or failed. */
  ghost predicate Standing<S(!new), T(!new)>(
    sub: Next<S, Command, T>, access: Access, explicitLe: bool, target: S, answers: seq<Response>,
    p: Progress<Selected<S>, Command, T>)
    requires ValidAccess(access)
  {
    var gates := Gates(access);
    var n := |answers|;
    if Opened(access, answers, |gates|) then
      p == Lifted(explicitLe, Solo(sub, target, None, answers[|gates|..]))
    else if Opened(access, answers, n) then
      p == Pending(
             Before(access, explicitLe, target, n),
             WithLe(explicitLe, GateCommand(gates[n], if n == 0 then None else Some(answers[n - 1]))))
    else
      && p.Failed? && p.state.stage != Target && p.state.target == target
      && exists i :: 0 <= i < n && i < |gates| && Opened(access, answers, i) && !Passes(gates[i], answers[i])
                     && p.error == GateError(gates[i], answers[i])
  }

  /** A failed gate settles where the run stands. */
  lemma StandsFailed<S(!new), T(!new)>(
    sub: Next<S, Command, T>, access: Access, explicitLe: bool, target: S, answers: seq<Response>, i: nat,
    p: Progress<Selected<S>, Command, T>)
    requires ValidAccess(access) && i < |Gates(access)| && i < |answers| && Opened(access, answers, i)
    requires !Passes(Gates(access)[i], answers[i]) && p.Failed? && p.error == GateError(Gates(access)[i], answers[i])
    requires p.state.stage != Target && p.state.target == target
    ensures Standing(sub, access, explicitLe, target, answers, p)
  {
    assert ValidGate(Gates(access)[i]);
    hide Solo, Before, Gates, GateCommand, GateError, Passes;
    assert !Opened(access, answers, |Gates(access)|) && !Opened(access, answers, |answers|);
  }

  lemma OneMoreOpened(access: Access, answers: seq<Response>, i: nat)
    requires ValidAccess(access) && i < |Gates(access)| && i < |answers| && Opened(access, answers, i)
    ensures Opened(access, answers, i + 1) <==> Passes(Gates(access)[i], answers[i])
  {
    hide Passes;
  }

  lemma {:induction false} FromGate<S(!new), T(!new)>(
    sub: Next<S, Command, T>, access: Access, explicitLe: bool, target: S, answers: seq<Response>, i: nat)
    requires ValidAccess(access) && i < |Gates(access)| && i < |answers| && Opened(access, answers, i)
    ensures Standing(sub, access, explicitLe, target, answers,
                     Solo(SelectedStep(sub), Before(access, explicitLe, target, i), Some(answers[i]), answers[i + 1..]))
    decreases |Gates(access)| - i
  {
    assert ValidGate(Gates(access)[i]);
    hide Solo, SelectedNext, Before, Gates, GateCommand, GateError, Passes, Opened, Standing, ValidAuth, Running, Lifted;
    var step := SelectedStep(sub);
    var st := Before(access, explicitLe, target, i);
    var left := answers[i + 1..];
    var p := Solo(step, st, Some(answers[i]), left);
    PassGate(sub, access, explicitLe, target, i, answers[i]);
    OneMoreOpened(access, answers, i);
    SoloUnfold(step, st, Some(answers[i]), left);
    if !Passes(Gates(access)[i], answers[i]) {
      StandsFailed(sub, access, explicitLe, target, answers, i, p);
    } else if i + 1 == |Gates(access)| {
      SameFirstStep(step, st, Some(answers[i]), Running(explicitLe, target), None, left);
      TargetRun(sub, explicitLe, target, None, left);
      StandsInTarget(sub, access, explicitLe, target, answers, p);
    } else if left != [] {
      assert left[1..] == answers[i + 2..];
      FromGate(sub, access, explicitLe, target, answers, i + 1);
    } else {
      AnswerForNext(access, i, answers[i]);
      StandsAtGate(sub, access, explicitLe, target, answers, p);
    }
  }

  /** The second management message is built from the answer that passed the first. */
  lemma AnswerForNext(access: Access, i: nat, a: Response)
    requires ValidAccess(access) && i + 1 < |Gates(access)| && Passes(Gates(access)[i], a)
    ensures ValidGate(Gates(access)[i + 1])
    ensures var gate := Gates(access)[i + 1]; gate.ClosingGate? ==> Opening(gate.auth, a)
  {
    hide Opening, Closing;
  }

  lemma StandsInTarget<S(!new), T(!new)>(
    sub: Next<S, Command, T>, access: Access, explicitLe: bool, target: S, answers: seq<Response>,
    p: Progress<Selected<S>, Command, T>)
    requires ValidAccess(access) && Opened(access, answers, |Gates(access)|)
    requires p == Lifted(explicitLe, Solo(sub, target, None, answers[|Gates(access)|..]))
    ensures Standing(sub, access, explicitLe, target, answers, p)
  {
  }

  lemma StandsAtGate<S(!new), T(!new)>(
    sub: Next<S, Command, T>, access: Access, explicitLe: bool, target: S, answers: seq<Response>,
    p: Progress<Selected<S>, Command, T>)
    requires ValidAccess(access) && 0 < |answers| < |Gates(access)| && Opened(access, answers, |answers|)
    requires var gate := Gates(access)[|answers|];
             gate.ClosingGate? ==> Opening(gate.auth, answers[|answers| - 1])
    requires p == Pending(
                    Before(access, explicitLe, target, |answers|),
                    WithLe(explicitLe, GateCommand(Gates(access)[|answers|], Some(answers[|answers| - 1]))))
    ensures Standing(sub, access, explicitLe, target, answers, p)
  {
    hide Solo, Before, GateCommand, Passes;
  }

  /**
   Access ordering over all card answers. The target sees nothing but the answers behind the
   gates, and only when every gate was passed in order: SELECT, both management messages, VERIFY.
   Until then the one command outstanding is that of the first gate not yet answered, and an
   answer that fails a gate ends the run with the target untouched.
   */
  lemma AccessIsGated<S(!new), T(!new)>(
    sub: Next<S, Command, T>, access: Access, explicitLe: bool, target: S, answers: seq<Response>)
    requires ValidAccess(access)
    ensures Standing(sub, access, explicitLe, target, answers,
                     Solo(SelectedStep(sub), Wrap(access, explicitLe, target), None, answers))
  {
    hide Solo;
    var step := SelectedStep(sub);
    SoloUnfold(step, Wrap(access, explicitLe, target), None, answers);
    if access.Existing? {
      TargetRun(sub, explicitLe, target, None, answers);
    } else if answers != [] {
      FromGate(sub, access, explicitLe, target, answers, 0);
    }
  }

  /** How a gate that is not passed is reported: by its status word, as the PIN's where a PIN was sent. */
  lemma GateFailureIsReported(g: Gate, a: Response)
    requires (g.SelectGate? || g.PinGate?) && a.sw != SUCCESS
    ensures var e := GateError(g, a);
            && e.status == Some(a.sw)
            && (g.SelectGate? ==> e.phase == Select && e.kind !in {PinBlocked, AuthenticationFailed}
                                  && (e.kind == UnsupportedDevice <==> a.sw == 0x6a82 || a.sw == 0x6a88))
            && (g.PinGate? ==> e.phase == Authentication && (e.kind == PinBlocked <==> a.sw == 0x6983)
                               && (e.kind == AuthenticationFailed <==> 0x63c0 <= a.sw <= 0x63cf))
  {
    hide StatusError;
    StatusIsClassified(a.sw, Select, false);
    StatusIsClassified(a.sw, Authentication, true);
  }

  /** VERIFY carries the PIN itself, filled up with ff to eight bytes. */
  lemma VerifyCarriesPin(pin: Pin)
    ensures var c := VerifyPin(pin);
            && c.ins == 0x20 && c.p1 == 0 && c.p2 == 0x80 && |c.data| == 8 && c.data[..|pin|] == pin
            && forall i :: |pin| <= i < 8 ==> c.data[i] == 0xff
  {
  }

  /**
   On firmware that needs it, every command that goes out asks for a response length, and a
   command without one asks for 256; on other firmware the commands are left as they are.
   */
  lemma EveryCommandHasLe<S(!new), T(!new)>(
    sub: Next<S, Command, T>, access: Access, target: S, answers: seq<Response>)
    requires ValidAccess(access)
    ensures var plain := Solo(SelectedStep(sub), Wrap(access, false, target), None, answers);
            var explicit := Solo(SelectedStep(sub), Wrap(access, true, target), None, answers);
            && (plain.Pending? <==> explicit.Pending?)
            && (explicit.Pending? ==>
                  && explicit.command.le
                     == (if plain.command.le == Absent then Exact(256) else plain.command.le)
                  && explicit.command.(le := Absent) == plain.command.(le := Absent))
  {
    hide Solo, Gates, GateCommand, Before, Passes;
    AccessIsGated(sub, access, false, target, answers);
    AccessIsGated(sub, access, true, target, answers);
  }

  /**
   Batch accounting seen through the wrapper: before the gates are open no progress is reported
   and no request has started; behind them the progress is exactly the completed prefix of the
   requests, with the failure located at its end.
   */
  lemma BatchProgressThroughAccess<S(!new), T(!new)>(
    sub: Next<S, Command, T>, size: T -> nat, limit: nat, machines: seq<S>,
    access: Access, explicitLe: bool, answers: seq<Response>)
    requires ValidAccess(access)
    ensures var start: BatchState<S, T> := BatchStart(machines, limit);
            var p := Solo(SelectedStep(BatchStep(sub, size)), Wrap(access, explicitLe, start), None, answers);
            var seen := ProgressThrough(p.state, s => TakeProgress(s));
            if !Opened(access, answers, |Gates(access)|) then
              !p.Finished? && seen == None && p.state.target == start
            else if p.Finished? then
              && |p.output.items| == |machines| && p.output.failedIndex == None
              && TotalSize(size, p.output.items) <= limit
              && Produced(sub, machines, p.output.items, answers[|Gates(access)|..], p.rest)
            else
              && seen.Some?
              && var done := seen.value.items;
              && seen.value.failedIndex == Some(|done|)
              && |done| + 1 + |p.state.target.pending| == |machines|
              && TotalSize(size, done) <= limit
              && exists rest :: Produced(sub, machines, done, answers[|Gates(access)|..], rest)
  {
    hide Solo, Produced, Gates, GateCommand, BatchStep, SelectedStep, TotalSize;
    var start: BatchState<S, T> := BatchStart(machines, limit);
    AccessIsGated(BatchStep(sub, size), access, explicitLe, start, answers);
    if Opened(access, answers, |Gates(access)|) {
      BatchAccounting(sub, size, limit, machines, answers[|Gates(access)|..]);
    }
  }
}
