/** The Admin machine driving a Configure request, and its runs against a card. */
module AdminRun {
  import opened Base
  import opened Compat
  import opened Admin

  datatype Stage = SelectStage | AuthenticateStage | ReadStage | WriteStage

  datatype Queued = Queued(command: Command, stage: Stage)

  datatype Outcome = Outcome(confirmedWrites: nat, reprobeRequired: bool)

  datatype State = State(queue: seq<Queued>, pending: Option<Stage>, outcome: Option<Outcome>)

  type AdminAction = Action<Command, Outcome>

  function Queue(writes: seq<Write>): (q: seq<Queued>)
    ensures |q| == |writes|
    ensures forall i :: 0 <= i < |q| ==> q[i] == Queued(WriteField(writes[i]), WriteStage)
  {
    seq(|writes|, i requires 0 <= i < |writes| => Queued(WriteField(writes[i]), WriteStage))
  }

  // ----- One step of the machine

  function Dispatch(s: State): (State, Result<AdminAction>) {
    if s.outcome.None? then (s, Err(Malformed()))
    else if s.queue == [] then (s.(outcome := None), Ok(Done(s.outcome.value)))
    else
      var head := s.queue[0];
      var outcome := if head.stage == WriteStage then s.outcome.value.(reprobeRequired := true) else s.outcome.value;
      (State(s.queue[1..], Some(head.stage), Some(outcome)), Ok(Send(head.command)))
  }

  function StagePhase(stage: Stage): Phase {
    match stage
    case SelectStage => Base.Select
    case AuthenticateStage => Authentication
    case _ => Base.Command
  }

  function Step(profile: Profile, patch: Patch, s: State, response: Option<Answer>)
    : (State, Result<AdminAction>)
  {
    if response.None? then Dispatch(s)
    else if s.pending.None? then (s, Err(Malformed()))
    else
      var a := response.value;
      var taken := s.(pending := None);
      var stage := s.pending.value;
      if stage == ReadStage then
        var layout := AdminLayout(profile);
        if a.sw != SUCCESS then (taken, Err(StatusError(a.sw, Base.Command, false)))
        else if layout.Err? then (taken, Err(layout.error))
        else
          var writes := PatchWrites(layout.value, a.data, patch);
          if writes.Err? then (taken, Err(writes.error))
          else Dispatch(taken.(queue := taken.queue + Queue(writes.value)))
      else
        if a.sw != SUCCESS then (taken, Err(StatusError(a.sw, StagePhase(stage), stage == AuthenticateStage)))
        else if a.data != [] then (taken, Err(Malformed()))
        else if stage != WriteStage then Dispatch(taken)
        else if taken.outcome.None? then (taken, Err(Malformed()))
        else
          var outcome := taken.outcome.value;
          Dispatch(taken.(outcome := Some(outcome.(confirmedWrites := outcome.confirmedWrites + 1))))
  }

  function InitialQueue(access: AdminAccess): seq<Queued> {
    (if access.Existing? then [] else [Queued(SelectAdmin, SelectStage)])
    + (if access.Pin? then [Queued(VerifyPin(access.pin), AuthenticateStage)] else [])
    + [Queued(ReadConfig, ReadStage)]
  }

  function Initial(access: AdminAccess): State { State(InitialQueue(access), None, Some(Outcome(0, false))) }

  // ----- The machine itself

  class Machine {
    const profile: Profile
    const patch: Patch
    var queue: seq<Queued>
    var pending: Option<Stage>
    var outcome: Option<Outcome>

    constructor (profile: Profile, patch: Patch, access: AdminAccess)
      ensures this.profile == profile && this.patch == patch && Current() == Initial(access)
    {
      this.profile, this.patch := profile, patch;
      queue, pending, outcome := InitialQueue(access), None, Some(Outcome(0, false));
    }

    function Current(): State
      reads this
    {
      State(queue, pending, outcome)
    }

    /** Queue one write for every selected field that differs; nothing is queued on an error. */
    method PatchQueue(layout: Layout, raw: seq<bv8>) returns (r: Result<()>)
      modifies this`queue
      ensures r == match PatchWrites(layout, raw, patch) { case Ok(_) => Ok(()) case Err(e) => Err(e) }
      ensures queue == old(queue) + (if r.Ok? then Queue(PatchWrites(layout, raw, patch).value) else [])
    {
      hide NewFeatures;
      if !Readable(layout, raw) {
        assert queue + [] == queue;
        return Err(Malformed());
      }
      var fields := PatchFields(layout, raw, patch);
      var writes: seq<Write> := [];
      assert fields[0..] == fields;
      assert WritesAfter([], FieldWrites(fields)) == FieldWrites(fields) by { WritesAfterNil(FieldWrites(fields)); }
      for i := 0 to |fields|
        invariant queue == old(queue)
        invariant FieldWrites(fields) == WritesAfter(writes, FieldWrites(fields[i..]))
      {
        var f := fields[i];
        assert fields[i..][0] == f && fields[i..][1..] == fields[i + 1..];
        if f.value.Some? {
          if f.observed.None? {
            assert queue + [] == queue;
            return Err(Fail(UnsupportedFeature));
          }
          if f.value != f.observed {
            WritesAfterOne(writes, FieldWrite(f), FieldWrites(fields[i + 1..]));
            writes := writes + [FieldWrite(f)];
          }
        }
      }
      assert writes + [] == writes;
      if layout == Features {
        var features := NewFeatures(raw[5], patch);
        if features != raw[5] {
          if features & !0x3f != 0 {
            assert queue + [] == queue;
            return Err(Fail(UnsupportedProtocolVersion));
          }
          writes := writes + [Write(0x40, 6, features)];
        }
      }
      queue := queue + Queue(writes);
      return Ok(());
    }

    method Next(response: Option<Answer>) returns (r: Result<AdminAction>)
      modifies this
      ensures (Current(), r) == Step(profile, patch, old(Current()), response)
    {
      hide PatchWrites, AdminLayout;
      if response.Some? {
        var a := response.value;
        if pending.None? {
          return Err(Malformed());
        }
        var stage := pending.value;
        pending := None;
        if stage == ReadStage {
          if a.sw != SUCCESS {
            return Err(StatusError(a.sw, Base.Command, false));
          }
          var layout := AdminLayout(profile);
          if layout.Err? {
            return Err(layout.error);
          }
          var queued := PatchQueue(layout.value, a.data);
          if queued.Err? {
            assert queue == old(queue);
            return Err(queued.error);
          }
        } else {
          if a.sw != SUCCESS {
            return Err(StatusError(a.sw, StagePhase(stage), stage == AuthenticateStage));
          }
          if a.data != [] {
            return Err(Malformed());
          }
          if stage == WriteStage {
            if outcome.None? {
              return Err(Malformed());
            }
            outcome := Some(outcome.value.(confirmedWrites := outcome.value.confirmedWrites + 1));
          }
        }
      }
      if outcome.None? {
        return Err(Malformed());
      }
      if queue == [] {
        r := Ok(Done(outcome.value));
        outcome := None;
      } else {
        var head := queue[0];
        queue := queue[1..];
        if head.stage == WriteStage {
          outcome := Some(outcome.value.(reprobeRequired := true));
        }
        pending := Some(head.stage);
        r := Ok(Send(head.command));
      }
    }
  }

  function WritesAfter(writes: seq<Write>, r: Result<seq<Write>>): Result<seq<Write>> {
    if r.Err? then r else Ok(writes + r.value)
  }

  lemma WritesAfterNil(r: Result<seq<Write>>)
    ensures WritesAfter([], r) == r
  {
    if r.Ok? {
      assert [] + r.value == r.value;
    }
  }

  lemma WritesAfterOne(writes: seq<Write>, w: Write, r: Result<seq<Write>>)
    ensures WritesAfter(writes, WritesAfter([w], r)) == WritesAfter(writes + [w], r)
  {
    if r.Ok? {
      assert writes + ([w] + r.value) == writes + [w] + r.value;
    }
  }

  // ----- When a patch is refused, and repeating it

  /**
   On a readable configuration an admitted patch is refused exactly when it would rewrite a
   feature byte holding bits the host does not know, and then no write is queued at all.
   */
  lemma PatchRefusedIff(layout: Layout, raw: seq<bv8>, p: Patch)
    requires Readable(layout, raw) && Admitted(layout, p)
    ensures PatchWrites(layout, raw, p).Ok?
       <==> !(layout == Features && raw[5] & !0x3f != 0 && raw[5] & p.featureMask != p.featureValues)
    ensures PatchWrites(layout, raw, p).Err? ==>
              PatchWrites(layout, raw, p).error == Fail(UnsupportedProtocolVersion)
  {
    hide FieldWrites;
    AdmittedPatchHasFields(layout, raw, p);
    if layout == Features {
      FeatureBits(raw[5], p);
    }
  }

  lemma FeatureBits(features: bv8, p: Patch)
    requires p.featureMask & !0x3f == 0 && p.featureValues & !p.featureMask == 0
    ensures NewFeatures(features, p) == features <==> features & p.featureMask == p.featureValues
    ensures NewFeatures(features, p) & !0x3f == features & !0x3f
  {
  }

  /** Repeating an applied patch sends no write. */
  lemma RepeatedPatchIsSilent(layout: Layout, raw: seq<bv8>, p: Patch)
    requires Readable(layout, raw) && Admitted(layout, p) && PatchWrites(layout, raw, p).Ok?
    ensures var out := ApplyAll(raw, PatchWrites(layout, raw, p).value);
            Readable(layout, out) && PatchWrites(layout, out, p) == Ok([])
  {
    hide ApplyAll, FieldWrites, NewFeatures;
    var out := ApplyAll(raw, PatchWrites(layout, raw, p).value);
    WritesRealisePatch(layout, raw, p);
    PatchedIsReadable(layout, raw, p, out);
    var fields := PatchFields(layout, out, p);
    forall f | f in fields ensures !Changes(f) {
    }
    NothingToWrite(fields);
    AdmittedPatchHasFields(layout, out, p);
    if layout == Features {
      FeatureBits(out[5], p);
    }
  }

  lemma PatchedIsReadable(layout: Layout, raw: seq<bv8>, p: Patch, out: seq<bv8>)
    requires Readable(layout, raw) && Patched(layout, raw, p, out)
    ensures Readable(layout, out)
  {
    hide FeaturesPatched;
    assert |raw| > 5 && layout != Features ==> out[5] == raw[5] by {
      if |raw| > 5 && layout != Features {
        assert out[5..][0] == raw[5..][0];
      }
    }
  }

  lemma {:induction false} NothingToWrite(fields: seq<Field>)
    requires forall f :: f in fields ==> !Changes(f)
    ensures FieldWrites(fields).Ok? ==> FieldWrites(fields).value == []
  {
    if fields != [] {
      NothingToWrite(fields[1..]);
      assert fields[0] in fields;
    }
  }

  // ----- Runs against a card

  /** The configuration, the card's PIN, and whether it has been verified since SELECT. */
  datatype AdminCard = AdminCard(raw: seq<bv8>, pin: Bytes, verified: bool)

  /** What happens to one command: whether the card processed it, and what the host is told. */
  datatype Event = Event(applied: bool, answer: Answer)

  /** SELECT ends verification, VERIFY compares the PIN, and a write is carried out only when verified. */
  function CardAfter(card: AdminCard, c: Command, e: Event): AdminCard {
    if !e.applied then card
    else
      match c
      case SelectAdmin => card.(verified := false)
      case VerifyPin(pin) => card.(verified := pin == card.pin)
      case ReadConfig => card
      case WriteField(w) => if card.verified then card.(raw := Apply(card.raw, w)) else card
  }

  /**
   The card reports success only for what it did: a PIN that matches, a write it carried out, its
   true configuration. Otherwise it may fail, refuse, or lose an answer at any point.
   */
  predicate Honest(card: AdminCard, c: Command, e: Event) {
    e.answer.sw == SUCCESS ==>
      && e.applied
      && (c.VerifyPin? ==> c.pin == card.pin)
      && (c.WriteField? ==> card.verified)
      && (c.ReadConfig? ==> e.answer.data == card.raw)
  }

  datatype System = System(machine: State, action: Result<AdminAction>, card: AdminCard)

  predicate Running(sys: System) { sys.action.Ok? && sys.action.value.Send? }

  function Exchange(profile: Profile, patch: Patch, sys: System, e: Event): System
    requires Running(sys)
  {
    var (machine, action) := Step(profile, patch, sys.machine, Some(e.answer));
    System(machine, action, CardAfter(sys.card, sys.action.value.command, e))
  }

  /** The system after the given events; nothing happens once the machine has stopped. */
  function Run(profile: Profile, patch: Patch, access: AdminAccess, card: AdminCard, events: seq<Event>): System {
    if events == [] then
      var (machine, action) := Step(profile, patch, Initial(access), None);
      System(machine, action, card)
    else
      var before := Run(profile, patch, access, card, events[..|events| - 1]);
      if Running(before) then Exchange(profile, patch, before, events[|events| - 1]) else before
  }

  /** Every event answers a command, honestly. */
  predicate Legal(profile: Profile, patch: Patch, access: AdminAccess, card: AdminCard, events: seq<Event>) {
    events == []
    || (var init, e := events[..|events| - 1], events[|events| - 1];
        var before := Run(profile, patch, access, card, init);
        && Legal(profile, patch, access, card, init) && Running(before)
        && Honest(before.card, before.action.value.command, e))
  }

  /** The commands that the events answered, in order. */
  function Sent(profile: Profile, patch: Patch, access: AdminAccess, card: AdminCard, events: seq<Event>): seq<Command> {
    if events == [] then []
    else
      var init := events[..|events| - 1];
      var before := Run(profile, patch, access, card, init);
      Sent(profile, patch, access, card, init) + if Running(before) then [before.action.value.command] else []
  }

  /** Commands before the first write: SELECT and VERIFY unless reused, and the read. */
  function Preamble(access: AdminAccess): nat { |InitialQueue(access)| }

  /** The card once the first `n` commands of the preamble have succeeded. */
  function CardAt(access: AdminAccess, card: AdminCard, n: nat): AdminCard {
    match access
    case Existing => card
    case NoPin => if n == 0 then card else card.(verified := false)
    case Pin(pin) => if n == 0 then card else card.(verified := n > 1)
  }

  /** The system while command `n` of the preamble is unanswered. */
  function InPreamble(access: AdminAccess, card: AdminCard, n: nat): System
    requires n < Preamble(access)
  {
    var q := InitialQueue(access);
    System(
      State(q[n + 1..], Some(q[n].stage), Some(Outcome(0, false))), Ok(Send(q[n].command)), CardAt(access, card, n))
  }

  /** The system once `k` writes have been acknowledged, on the card that the read found. */
  function AfterWrites(read: AdminCard, writes: seq<Write>, k: nat): System
    requires k <= |writes|
  {
    var card := read.(raw := ApplyAll(read.raw, writes[..k]));
    if k < |writes| then
      System(State(Queue(writes)[k + 1..], Some(WriteStage), Some(Outcome(k, true))), Ok(Send(WriteField(writes[k]))), card)
    else
      System(State([], None, None), Ok(Done(Outcome(k, k > 0))), card)
  }

  /** Failed before any write was sent: nothing is written and nothing confirmed. */
  predicate FailedUnwritten(raw: seq<bv8>, sys: System) {
    sys.action.Err? && sys.card.raw == raw && sys.machine.outcome == Some(Outcome(0, false))
  }

  /**
   Failed on the answer to write `k`: that write is on the card or lost, exactly the ones before
   it are applied, and the retained outcome confirms exactly those.
   */
  predicate FailedWriting(raw: seq<bv8>, writes: seq<Write>, k: nat, sys: System)
    requires k < |writes|
  {
    && sys.action.Err?
    && (sys.card.raw == ApplyAll(raw, writes[..k]) || sys.card.raw == ApplyAll(raw, writes[..k + 1]))
    && sys.machine.outcome == Some(Outcome(k, true))
  }

  /** Where the system stands after `n` events. */
  ghost predicate Standing(access: AdminAccess, card: AdminCard, planned: Result<seq<Write>>, n: nat, sys: System) {
    var preamble := Preamble(access);
    if n < preamble then sys == InPreamble(access, card, n) || FailedUnwritten(card.raw, sys)
    else if planned.Err? then n == preamble && FailedUnwritten(card.raw, sys)
    else
      var writes, k := planned.value, n - preamble;
      && k <= |writes|
      && (|| sys == AfterWrites(CardAt(access, card, preamble), writes, k)
          || (k == 0 && FailedUnwritten(card.raw, sys))
          || (k > 0 && FailedWriting(card.raw, writes, k - 1, sys)))
  }

  /** What the machine will do with a truthful read. */
  function Planned(profile: Profile, patch: Patch, raw: seq<bv8>): Result<seq<Write>> {
    var layout := AdminLayout(profile);
    if layout.Err? then Err(layout.error) else PatchWrites(layout.value, raw, patch)
  }

  lemma StartStands(profile: Profile, patch: Patch, access: AdminAccess, card: AdminCard)
    ensures Preamble(access) > 0 && Run(profile, patch, access, card, []) == InPreamble(access, card, 0)
  {
    hide PatchWrites, AdminLayout;
  }

  lemma PreambleStep(profile: Profile, patch: Patch, access: AdminAccess, card: AdminCard, n: nat, e: Event)
    requires n + 1 < Preamble(access)
    requires var sys := InPreamble(access, card, n); Honest(sys.card, sys.action.value.command, e)
    ensures Running(InPreamble(access, card, n))
    ensures var next := Exchange(profile, patch, InPreamble(access, card, n), e);
            if e.answer == Answer([], SUCCESS) then next == InPreamble(access, card, n + 1)
            else FailedUnwritten(card.raw, next)
  {
    hide PatchWrites, AdminLayout, StatusError;
    var q := InitialQueue(access);
    assert q[n].stage != ReadStage && q[n].stage != WriteStage;
    assert q[n + 1..][0] == q[n + 1] && q[n + 1..][1..] == q[n + 2..];
  }

  lemma LastOfPreamble(access: AdminAccess, card: AdminCard)
    ensures var sys := InPreamble(access, card, Preamble(access) - 1);
            && sys.action == Ok(Send(ReadConfig))
            && sys.card == CardAt(access, card, Preamble(access)) && sys.card.raw == card.raw
  {
  }

  lemma ReadStep(profile: Profile, patch: Patch, access: AdminAccess, card: AdminCard, e: Event)
    requires Honest(InPreamble(access, card, Preamble(access) - 1).card, ReadConfig, e)
    ensures var sys := InPreamble(access, card, Preamble(access) - 1);
            var planned := Planned(profile, patch, card.raw);
            && Running(sys) && sys.action.value.command == ReadConfig
            && var next := Exchange(profile, patch, sys, e);
               if e.answer.sw == SUCCESS && planned.Ok? then
                 next == AfterWrites(CardAt(access, card, Preamble(access)), planned.value, 0)
               else FailedUnwritten(card.raw, next)
                    && (e.answer.sw == SUCCESS ==> next.action == Err(planned.error))
  {
    hide PatchWrites, AdminLayout, StatusError, ApplyAll, Apply;
    var q := InitialQueue(access);
    assert q[|q| - 1] == Queued(ReadConfig, ReadStage) && q[|q|..] == [];
    var planned := Planned(profile, patch, card.raw);
    LastOfPreamble(access, card);
    if planned.Ok? {
      assert [] + Queue(planned.value) == Queue(planned.value);
      ApplyNone(card.raw, planned.value[..0]);
    }
  }

  lemma WriteStep(profile: Profile, patch: Patch, read: AdminCard, writes: seq<Write>, k: nat, e: Event)
    requires k < |writes| && Honest(AfterWrites(read, writes, k).card, WriteField(writes[k]), e)
    ensures Running(AfterWrites(read, writes, k))
    ensures var next := Exchange(profile, patch, AfterWrites(read, writes, k), e);
            if e.answer == Answer([], SUCCESS) then next == AfterWrites(read, writes, k + 1)
            else FailedWriting(read.raw, writes, k, next)
  {
    hide ApplyAll, Apply, StatusError, PatchWrites, AdminLayout;
    assert writes[..k + 1] == writes[..k] + [writes[k]];
    ApplyAllSnoc(read.raw, writes[..k], writes[k]);
    var q := Queue(writes);
    if k + 1 < |writes| {
      assert q[k + 1..][0] == q[k + 1] && q[k + 1..][1..] == q[k + 2..];
    } else {
      assert q[k + 1..] == [];
    }
  }

  lemma ApplyNone(raw: seq<bv8>, none: seq<Write>)
    requires none == []
    ensures ApplyAll(raw, none) == raw
  {
  }

  /**
   Every run against every honest card, interrupted anywhere: the card holds exactly the
   acknowledged writes, plus possibly the one whose answer failed or was lost, and the outcome
   the machine still holds confirms exactly the acknowledged ones.
   */
  lemma {:induction false} ConfigureRun(
    profile: Profile, patch: Patch, access: AdminAccess, card: AdminCard, events: seq<Event>)
    requires Legal(profile, patch, access, card, events)
    ensures Standing(access, card, Planned(profile, patch, card.raw), |events|, Run(profile, patch, access, card, events))
    decreases events
  {
    hide Exchange, Honest, InPreamble, AfterWrites, Planned, ApplyAll, InitialQueue, Step, CardAt;
    if events == [] {
      StartStands(profile, patch, access, card);
    } else {
      var init, e := events[..|events| - 1], events[|events| - 1];
      ConfigureRun(profile, patch, access, card, init);
      StandingStep(profile, patch, access, card, |init|, Run(profile, patch, access, card, init), e);
    }
  }

  lemma StandingStep(
    profile: Profile, patch: Patch, access: AdminAccess, card: AdminCard, n: nat, sys: System, e: Event)
    requires Standing(access, card, Planned(profile, patch, card.raw), n, sys) && Running(sys)
    requires Honest(sys.card, sys.action.value.command, e)
    ensures Standing(access, card, Planned(profile, patch, card.raw), n + 1, Exchange(profile, patch, sys, e))
  {
    hide Exchange, Honest, Planned, ApplyAll, InitialQueue, CardAt;
    var preamble, planned := Preamble(access), Planned(profile, patch, card.raw);
    LastOfPreamble(access, card);
    if n + 1 < preamble {
      PreambleStep(profile, patch, access, card, n, e);
    } else if n + 1 == preamble {
      ReadStep(profile, patch, access, card, e);
    } else {
      WriteStep(profile, patch, CardAt(access, card, preamble), planned.value, n - preamble, e);
    }
  }

  // ----- Authentication

  /** SELECT, VERIFY of the given PIN and the read, or the read alone. */
  function Opening(access: AdminAccess): seq<Command> {
    match access
    case Existing => [ReadConfig]
    case NoPin => [SelectAdmin, ReadConfig]
    case Pin(pin) => [SelectAdmin, VerifyPin(pin), ReadConfig]
  }

  lemma OpeningIsPreamble(access: AdminAccess)
    ensures Preamble(access) == |Opening(access)|
    ensures forall i :: 0 <= i < |Opening(access)| ==> InitialQueue(access)[i].command == Opening(access)[i]
  {
  }

  /** The commands sent are those of the opening, in order, and after it writes only. */
  ghost predicate InOrder(access: AdminAccess, commands: seq<Command>, answers: seq<Event>)
    requires |commands| == |answers|
  {
    forall i :: 0 <= i < |commands| ==>
      && (i < |Opening(access)| ==> commands[i] == Opening(access)[i])
      && (i >= |Opening(access)| ==> commands[i].WriteField?)
  }

  ghost predicate Acknowledged(commands: seq<Command>, answers: seq<Event>)
    requires |commands| == |answers|
  {
    forall i :: 0 <= i < |commands| ==>
      answers[i].answer.sw == SUCCESS && (!commands[i].ReadConfig? ==> answers[i].answer == Answer([], SUCCESS))
  }

  /** In every run the commands come in order, and each was acknowledged before the next went out. */
  lemma {:induction false} CommandsInOrder(
    profile: Profile, patch: Patch, access: AdminAccess, card: AdminCard, events: seq<Event>)
    requires Legal(profile, patch, access, card, events)
    ensures var sent := Sent(profile, patch, access, card, events);
            var sys := Run(profile, patch, access, card, events);
            && |sent| == |events| && InOrder(access, sent, events)
            && (Running(sys) ==>
                  && Acknowledged(sent, events)
                  && var n, c := |events|, sys.action.value.command;
                     if n < |Opening(access)| then c == Opening(access)[n] else c.WriteField?)
    decreases events
  {
    hide Exchange, Honest, Planned, Step, Standing, Opening;
    var sys := Run(profile, patch, access, card, events);
    ConfigureRun(profile, patch, access, card, events);
    if Running(sys) {
      Outstanding(access, card, Planned(profile, patch, card.raw), |events|, sys);
    }
    if events != [] {
      var init, e := events[..|events| - 1], events[|events| - 1];
      var before := Run(profile, patch, access, card, init);
      CommandsInOrder(profile, patch, access, card, init);
      ConfigureRun(profile, patch, access, card, init);
      Outstanding(access, card, Planned(profile, patch, card.raw), |init|, before);
      if Running(sys) {
        AnsweredWell(profile, patch, access, card, |init|, before, e);
      }
    }
  }

  /** The outstanding command is the next of the opening, or a write. */
  lemma Outstanding(access: AdminAccess, card: AdminCard, planned: Result<seq<Write>>, n: nat, sys: System)
    requires Standing(access, card, planned, n, sys) && Running(sys)
    ensures var c := sys.action.value.command;
            if n < |Opening(access)| then c == Opening(access)[n] else c.WriteField?
  {
    hide InitialQueue, CardAt, ApplyAll;
    OpeningIsPreamble(access);
  }

  /** A machine that goes on was answered well. */
  lemma AnsweredWell(
    profile: Profile, patch: Patch, access: AdminAccess, card: AdminCard, n: nat, sys: System, e: Event)
    requires Standing(access, card, Planned(profile, patch, card.raw), n, sys) && Running(sys)
    requires Honest(sys.card, sys.action.value.command, e) && Running(Exchange(profile, patch, sys, e))
    ensures e.answer.sw == SUCCESS
    ensures !sys.action.value.command.ReadConfig? ==> e.answer == Answer([], SUCCESS)
  {
    hide Exchange, Honest, Planned, ApplyAll, InitialQueue, CardAt;
    var preamble, planned := Preamble(access), Planned(profile, patch, card.raw);
    LastOfPreamble(access, card);
    if n + 1 < preamble {
      PreambleStep(profile, patch, access, card, n, e);
    } else if n + 1 == preamble {
      ReadStep(profile, patch, access, card, e);
    } else {
      WriteStep(profile, patch, CardAt(access, card, preamble), planned.value, n - preamble, e);
    }
  }

  /**
   No write goes out unauthenticated: while a write is outstanding under PIN access, SELECT was
   sent first and then VERIFY with that PIN, the card accepted it as its own, and it still holds
   the verification. A run on an existing session sends neither.
   */
  lemma WritesFollowVerify(profile: Profile, patch: Patch, access: AdminAccess, card: AdminCard, events: seq<Event>)
    requires Legal(profile, patch, access, card, events)
    requires var sys := Run(profile, patch, access, card, events); Running(sys) && sys.action.value.command.WriteField?
    ensures var sent := Sent(profile, patch, access, card, events);
            var sys := Run(profile, patch, access, card, events);
            && (access.Pin? ==>
                  && |sent| == |events| >= 3 && sent[..3] == [SelectAdmin, VerifyPin(access.pin), ReadConfig]
                  && events[1].answer == Answer([], SUCCESS)
                  && access.pin == card.pin && sys.card.verified
                  && forall i :: 3 <= i < |sent| ==> sent[i].WriteField?)
            && (access.Existing? ==> forall c :: c in sent ==> c == ReadConfig || c.WriteField?)
  {
    hide Honest, Planned, ApplyAll, Step, Sent, Run, Legal;
    CommandsInOrder(profile, patch, access, card, events);
    ConfigureRun(profile, patch, access, card, events);
    OpeningIsPreamble(access);
    if access.Pin? {
      var sent := Sent(profile, patch, access, card, events);
      assert sent[..3] == [sent[0], sent[1], sent[2]];
      VerifyWasHonest(profile, patch, access, card, events);
    }
  }

  lemma {:induction false} VerifyWasHonest(
    profile: Profile, patch: Patch, access: AdminAccess, card: AdminCard, events: seq<Event>)
    requires Legal(profile, patch, access, card, events) && access.Pin? && |events| >= 2
    ensures events[1].answer.sw == SUCCESS ==> access.pin == card.pin
    decreases events
  {
    hide Exchange, Planned, ApplyAll, Step;
    var init := events[..|events| - 1];
    if |events| == 2 {
      ConfigureRun(profile, patch, access, card, init);
    } else {
      VerifyWasHonest(profile, patch, access, card, init);
    }
  }

  /** With a PIN that is not the card's, nothing is ever written. */
  lemma WrongPinWritesNothing(profile: Profile, patch: Patch, access: AdminAccess, card: AdminCard, events: seq<Event>)
    requires Legal(profile, patch, access, card, events) && access.Pin? && access.pin != card.pin
    ensures var sys := Run(profile, patch, access, card, events);
            sys.card.raw == card.raw && !(sys.action.Ok? && sys.action.value.Done?) && |events| <= 2
  {
    hide Exchange, Planned, ApplyAll, Step, InitialQueue, Honest;
    TooFar(profile, patch, access, card, events);
    ConfigureRun(profile, patch, access, card, events);
    OpeningIsPreamble(access);
  }

  lemma {:induction false} TooFar(
    profile: Profile, patch: Patch, access: AdminAccess, card: AdminCard, events: seq<Event>)
    requires Legal(profile, patch, access, card, events) && access.Pin? && access.pin != card.pin
    ensures |events| <= 2
    decreases events
  {
    hide Exchange, Planned, ApplyAll, Step, InitialQueue, CardAt, Honest, InOrder;
    if |events| >= 3 {
      var init := events[..|events| - 1];
      TooFar(profile, patch, access, card, init);
      CommandsInOrder(profile, patch, access, card, init);
      VerifyWasHonest(profile, patch, access, card, init);
    }
  }

  /** A failing VERIFY is reported as the Admin PIN's: wrong with tries left, or blocked. */
  lemma PinFailureIsReported(profile: Profile, patch: Patch, pin: Bytes, card: AdminCard, first: Event, second: Event)
    requires first.answer == Answer([], SUCCESS) && second.answer.sw != SUCCESS
    ensures var sys := Run(profile, patch, Pin(pin), card, [first, second]);
            && sys.action.Err? && sys.action.error.status == Some(second.answer.sw)
            && sys.action.error.phase == Authentication && sys.card.raw == card.raw
            && (sys.action.error.kind == PinBlocked <==> second.answer.sw == 0x6983)
            && (sys.action.error.kind == AuthenticationFailed <==> second.answer.sw / 16 == 0x63c)
  {
    hide PatchWrites, AdminLayout, ApplyAll, Apply;
    var access := Pin(pin);
    var events := [first, second];
    assert events[..1] == [first] && [first][..0] == [];
    var q := InitialQueue(access);
    assert q == [Queued(SelectAdmin, SelectStage), Queued(VerifyPin(pin), AuthenticateStage), Queued(ReadConfig, ReadStage)];
    StartStands(profile, patch, access, card);
    assert q[1..][0] == q[1] && q[1..][1..] == q[2..];
  }

  // ----- Outcomes

  /** A refused patch never sends a write: whatever is answered, the card keeps its configuration. */
  lemma RefusedRun(profile: Profile, patch: Patch, access: AdminAccess, card: AdminCard, events: seq<Event>)
    requires Legal(profile, patch, access, card, events) && Planned(profile, patch, card.raw).Err?
    ensures var sys := Run(profile, patch, access, card, events);
            && sys.card.raw == card.raw && sys.machine.outcome == Some(Outcome(0, false))
            && (Running(sys) ==> !sys.action.value.command.WriteField?)
            && !(sys.action.Ok? && sys.action.value.Done?)
  {
    hide Run, Legal, Planned;
    ConfigureRun(profile, patch, access, card, events);
  }

  /**
   A run that reports success, on any honest card and for every firmware, configuration and
   admitted patch, has left exactly the patched configuration and confirmed every write.
   */
  lemma CompletedRunIsPatched(
    profile: Profile, patch: Patch, access: AdminAccess, card: AdminCard, events: seq<Event>)
    requires AdmitConfigure(profile, patch, access).Ok? && Legal(profile, patch, access, card, events)
    requires var sys := Run(profile, patch, access, card, events); sys.action.Ok? && sys.action.value.Done?
    ensures var sys := Run(profile, patch, access, card, events);
            var layout := AdminLayout(profile);
            && layout.Ok? && Readable(layout.value, card.raw) && PatchWrites(layout.value, card.raw, patch).Ok?
            && var writes := PatchWrites(layout.value, card.raw, patch).value;
            && Patched(layout.value, card.raw, patch, sys.card.raw)
            && sys.action.value.output == Outcome(|writes|, |writes| > 0)
            && |events| == |Opening(access)| + |writes|
  {
    hide AdmitConfigure, AdminLayout, ApplyAll, Run, Legal, Patched, InitialQueue;
    ConfigureRun(profile, patch, access, card, events);
    OpeningIsPreamble(access);
    var layout := AdminLayout(profile);
    var writes := Planned(profile, patch, card.raw).value;
    assert writes[..|writes|] == writes;
    PlannedIsReadable(layout.value, card.raw, patch);
    GatesMatchLayouts(profile, patch, access);
    hide PatchWrites;
    WritesRealisePatch(layout.value, card.raw, patch);
  }

  lemma PlannedIsReadable(layout: Layout, raw: seq<bv8>, p: Patch)
    requires PatchWrites(layout, raw, p).Ok?
    ensures Readable(layout, raw)
  {
  }

  // ----- Undisturbed runs

  /** The card processes the command and tells the truth about it. */
  function IdealEvent(card: AdminCard, c: Command): Event {
    match c
    case SelectAdmin => Event(true, Answer([], SUCCESS))
    case VerifyPin(pin) => Event(true, Answer([], if pin == card.pin then SUCCESS else 0x63c2))
    case ReadConfig => Event(true, Answer(card.raw, SUCCESS))
    case WriteField(_) => Event(true, Answer([], if card.verified then SUCCESS else 0x6982))
  }

  /** The host can authenticate: with the card's PIN, or in a session that already is. */
  predicate CanWrite(access: AdminAccess, card: AdminCard) {
    match access
    case Existing => card.verified
    case NoPin => false
    case Pin(pin) => pin == card.pin
  }

  function IdealEvents(profile: Profile, patch: Patch, access: AdminAccess, card: AdminCard, n: nat): seq<Event> {
    if n == 0 then []
    else
      var events := IdealEvents(profile, patch, access, card, n - 1);
      var sys := Run(profile, patch, access, card, events);
      if Running(sys) then events + [IdealEvent(sys.card, sys.action.value.command)] else events
  }

  /** The undisturbed run of a patch that is not refused completes after one command per write. */
  lemma UndisturbedRunCompletes(profile: Profile, patch: Patch, access: AdminAccess, card: AdminCard)
    requires Planned(profile, patch, card.raw).Ok? && CanWrite(access, card)
    ensures var writes := Planned(profile, patch, card.raw).value;
            var events := IdealEvents(profile, patch, access, card, |Opening(access)| + |writes|);
            && Legal(profile, patch, access, card, events)
            && Run(profile, patch, access, card, events).action == Ok(Done(Outcome(|writes|, |writes| > 0)))
  {
    hide Run, Legal, Planned, IdealEvents, InitialQueue, CanWrite;
    OpeningIsPreamble(access);
    UndisturbedRun(profile, patch, access, card, Preamble(access) + |Planned(profile, patch, card.raw).value|);
  }

  lemma {:induction false} UndisturbedRun(
    profile: Profile, patch: Patch, access: AdminAccess, card: AdminCard, n: nat)
    requires Planned(profile, patch, card.raw).Ok? && CanWrite(access, card)
    requires n <= Preamble(access) + |Planned(profile, patch, card.raw).value|
    ensures var events := IdealEvents(profile, patch, access, card, n);
            && Legal(profile, patch, access, card, events) && |events| == n
            && Run(profile, patch, access, card, events)
               == if n < Preamble(access) then InPreamble(access, card, n)
                  else AfterWrites(CardAt(access, card, Preamble(access)), Planned(profile, patch, card.raw).value,
                                   n - Preamble(access))
    decreases n
  {
    hide Exchange, Planned, InitialQueue, Run, Legal, AfterWrites, InPreamble, IdealEvent, IdealEvents, Honest, CanWrite, CardAt;
    if n == 0 {
      NoEventsYet(profile, patch, access, card);
    } else {
      UndisturbedRun(profile, patch, access, card, n - 1);
      var before := IdealEvents(profile, patch, access, card, n - 1);
      var sys := Run(profile, patch, access, card, before);
      assert Running(sys) by { StillRunning(access, card, Planned(profile, patch, card.raw).value, n - 1); }
      var e := IdealEvent(sys.card, sys.action.value.command);
      IdealStep(profile, patch, access, card, n - 1, sys, e);
      IdealSnoc(profile, patch, access, card, n);
      OneMoreEvent(profile, patch, access, card, before, e);
    }
  }

  lemma NoEventsYet(profile: Profile, patch: Patch, access: AdminAccess, card: AdminCard)
    ensures IdealEvents(profile, patch, access, card, 0) == [] && Legal(profile, patch, access, card, [])
    ensures Preamble(access) > 0 && Run(profile, patch, access, card, []) == InPreamble(access, card, 0)
  {
    hide Step, InitialQueue, InPreamble;
    StartStands(profile, patch, access, card);
  }

  lemma IdealSnoc(profile: Profile, patch: Patch, access: AdminAccess, card: AdminCard, n: nat)
    requires n > 0
    ensures var before := IdealEvents(profile, patch, access, card, n - 1);
            var sys := Run(profile, patch, access, card, before);
            Running(sys) ==>
              IdealEvents(profile, patch, access, card, n) == before + [IdealEvent(sys.card, sys.action.value.command)]
  {
    hide Run, IdealEvent;
  }

  lemma StillRunning(access: AdminAccess, card: AdminCard, writes: seq<Write>, n: nat)
    requires n < Preamble(access) + |writes|
    ensures Running(if n < Preamble(access) then InPreamble(access, card, n)
                    else AfterWrites(CardAt(access, card, Preamble(access)), writes, n - Preamble(access)))
  {
    hide InitialQueue, CardAt;
  }

  lemma OneMoreEvent(
    profile: Profile, patch: Patch, access: AdminAccess, card: AdminCard, before: seq<Event>, e: Event)
    requires Legal(profile, patch, access, card, before)
    requires var sys := Run(profile, patch, access, card, before);
             Running(sys) && Honest(sys.card, sys.action.value.command, e)
    ensures Legal(profile, patch, access, card, before + [e])
    ensures Run(profile, patch, access, card, before + [e])
         == Exchange(profile, patch, Run(profile, patch, access, card, before), e)
  {
    hide Exchange, Honest, Step;
    assert (before + [e])[..|before|] == before;
  }

  lemma IdealStep(
    profile: Profile, patch: Patch, access: AdminAccess, card: AdminCard, n: nat, sys: System, e: Event)
    requires Planned(profile, patch, card.raw).Ok? && CanWrite(access, card)
    requires n < Preamble(access) + |Planned(profile, patch, card.raw).value|
    requires sys == if n < Preamble(access) then InPreamble(access, card, n)
                    else AfterWrites(CardAt(access, card, Preamble(access)), Planned(profile, patch, card.raw).value,
                                     n - Preamble(access))
    requires Running(sys) && e == IdealEvent(sys.card, sys.action.value.command)
    ensures Honest(sys.card, sys.action.value.command, e)
    ensures Exchange(profile, patch, sys, e)
         == if n + 1 < Preamble(access) then InPreamble(access, card, n + 1)
            else AfterWrites(CardAt(access, card, Preamble(access)), Planned(profile, patch, card.raw).value,
                             n + 1 - Preamble(access))
  {
    hide Exchange, Planned, ApplyAll, InitialQueue, CardAt, IdealEvent, Honest, CanWrite;
    var preamble := Preamble(access);
    LastOfPreamble(access, card);
    if n + 1 < preamble {
      IdealOpening(access, card, n);
      PreambleStep(profile, patch, access, card, n, e);
    } else if n + 1 == preamble {
      IdealReading(sys.card);
      ReadStep(profile, patch, access, card, e);
    } else {
      IdealWriting(access, card, sys.card, sys.action.value.command);
      WriteStep(profile, patch, CardAt(access, card, preamble), Planned(profile, patch, card.raw).value, n - preamble, e);
    }
  }

  lemma IdealOpening(access: AdminAccess, card: AdminCard, n: nat)
    requires n + 1 < Preamble(access) && CanWrite(access, card)
    ensures var sys := InPreamble(access, card, n);
            var e := IdealEvent(sys.card, sys.action.value.command);
            Honest(sys.card, sys.action.value.command, e) && e.answer == Answer([], SUCCESS)
  {
  }

  lemma IdealReading(card: AdminCard)
    ensures var e := IdealEvent(card, ReadConfig); Honest(card, ReadConfig, e) && e.answer.sw == SUCCESS
  {
  }

  lemma IdealWriting(access: AdminAccess, card: AdminCard, now: AdminCard, c: Command)
    requires CanWrite(access, card) && c.WriteField?
    requires now.verified == CardAt(access, card, Preamble(access)).verified
    ensures Honest(now, c, IdealEvent(now, c)) && IdealEvent(now, c).answer == Answer([], SUCCESS)
  {
  }
}
