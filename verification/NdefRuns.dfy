/** Runs of the NDEF writer against a card: crash consistency, exact exchange counts, file bounds. */
module NdefRuns {
  import opened Base
  import opened Ndef

  // ----- Card

  /** Elementary files by identifier, and the one currently selected. */
  datatype Card = Card(files: map<nat, Bytes>, selected: Option<nat>)

  /**
   What happens to one command: whether its effect reached the card, and the answer the host
   gets. A lost answer is an answer other than success.
   */
  datatype Event = Event(applied: bool, response: Response)

  predicate Success(e: Event) { e.response.sw == SUCCESS }

  predicate CanUpdate(card: Card, offset: nat, data: Bytes) {
    && card.selected.Some? && card.selected.value in card.files
    && offset + |data| <= |card.files[card.selected.value]|
  }

  function Overwrite(f: Bytes, offset: nat, data: Bytes): (g: Bytes)
    requires offset + |data| <= |f|
    ensures |g| == |f| && g[offset..offset + |data|] == data
    ensures forall i :: 0 <= i < |f| && !(offset <= i < offset + |data|) ==> g[i] == f[i]
  {
    f[..offset] + data + f[offset + |data|..]
  }

  /** UPDATE BINARY is atomic: all of its data is stored, or none. */
  function CardAfter(card: Card, cmd: Cmd, e: Event): Card {
    match cmd
    case SelectApplet => card.(selected := None)
    case SelectFile(id) => if Success(e) && id in card.files then card.(selected := Some(id)) else card
    case ReadBinary(_, _) => card
    case UpdateBinary(offset, data) =>
      if e.applied && CanUpdate(card, offset, data) then
        var id := card.selected.value;
        card.(files := card.files[id := Overwrite(card.files[id], offset, data)])
      else card
  }

  /** The card never acknowledges an update it did not make; otherwise it may answer anything. */
  predicate Honest(card: Card, cmd: Cmd, e: Event) {
    && (cmd.SelectFile? && Success(e) ==> cmd.id in card.files)
    && (cmd.UpdateBinary? ==> (Success(e) ==> e.applied) && (e.applied ==> CanUpdate(card, cmd.offset, cmd.data)))
  }

  function Answer(applied: bool, data: Bytes, sw: nat): Event { Event(applied, Response(data, sw)) }

  /** A card that carries out every command it can and reads its files truthfully. */
  function IdealEvent(card: Card, cmd: Cmd): Event {
    match cmd
    case SelectApplet => Answer(true, [], SUCCESS)
    case SelectFile(id) => if id in card.files then Answer(true, [], SUCCESS) else Answer(false, [], 0x6a82)
    case ReadBinary(offset, length) =>
      if card.selected.None? || card.selected.value !in card.files then Answer(false, [], 0x6985)
      else
        var f := card.files[card.selected.value];
        if offset + length <= |f| then Answer(true, f[offset..offset + length], SUCCESS)
        else Answer(false, [], 0x6b00)
    case UpdateBinary(offset, data) =>
      if CanUpdate(card, offset, data) then Answer(true, [], SUCCESS) else Answer(false, [], 0x6985)
  }

  // ----- File contents

  /** The length field announces exactly `message` and the message stands behind it. */
  predicate Stored(f: Bytes, message: Bytes) {
    |f| >= 2 + |message| && BeVal(f[..2]) == |message| && f[2..2 + |message|] == message
  }

  /** The length field is zero and the first `n` bytes of the message are in place. */
  predicate Partial(f: Bytes, message: Bytes, n: nat)
    requires n <= |message|
  {
    |f| >= 2 + n && BeVal(f[..2]) == 0 && f[2..2 + n] == message[..n]
  }

  /** Untouched, empty, or holding the complete new message. */
  predicate CrashSafe(before: Bytes, message: Bytes, f: Bytes) {
    f == before || (|f| >= 2 && BeVal(f[..2]) == 0) || Stored(f, message)
  }

  ghost predicate AllCrashSafe(before: map<nat, Bytes>, message: Bytes, files: map<nat, Bytes>) {
    files.Keys == before.Keys && forall id :: id in files ==> CrashSafe(before[id], message, files[id])
  }

  lemma ZeroValue(f: Bytes)
    requires |f| >= 2 && f[0] == 0 && f[1] == 0
    ensures BeVal(f[..2]) == 0
  {
    BeVal2(f[..2]);
  }

  lemma SameLength(f: Bytes, g: Bytes)
    requires |f| == |g| >= 2 && f[0] == g[0] && f[1] == g[1]
    ensures f[..2] == g[..2]
  {
  }

  lemma ZeroThenPartial(f: Bytes, message: Bytes)
    requires |f| >= 2
    ensures Partial(Overwrite(f, 0, [0, 0]), message, 0)
  {
    var g := Overwrite(f, 0, [0, 0]);
    assert g[0..2] == [0, 0] && g[0] == g[0..2][0] && g[1] == g[0..2][1];
    ZeroValue(g);
  }

  lemma ChunkExtends(f: Bytes, message: Bytes, n: nat, take: nat)
    requires n + take <= |message| && Partial(f, message, n) && 2 + n + take <= |f|
    ensures Partial(Overwrite(f, 2 + n, message[n..n + take]), message, n + take)
  {
    var data := message[n..n + take];
    var g := Overwrite(f, 2 + n, data);
    SameLength(f, g);
    assert g[2..2 + n] == f[2..2 + n];
    assert g[2..2 + n + take] == g[2..2 + n] + g[2 + n..2 + n + take];
    assert message[..n + take] == message[..n] + data;
  }

  lemma LengthField(n: nat)
    requires n <= MAX_MESSAGE_LENGTH
    ensures BeVal(Be(n, 2)) == n
  {
    hide Be, BeVal;
    Pow256Values();
    BeValBe(n, 2);
  }

  lemma LengthCompletes(f: Bytes, message: Bytes)
    requires |message| <= MAX_MESSAGE_LENGTH && Partial(f, message, |message|)
    ensures Stored(Overwrite(f, 0, Be(|message|, 2)), message)
  {
    hide Be, BeVal, Overwrite;
    var g := Overwrite(f, 0, Be(|message|, 2));
    assert g[..2] == g[0..2] == Be(|message|, 2);
    LengthField(|message|);
    assert message[..|message|] == message;
    assert g[2..2 + |message|] == f[2..2 + |message|];
  }

  // ----- Write runs

  datatype WriteSys = WriteSys(machine: WriteState, action: Result<Action<Cmd, ()>>, card: Card)

  predicate Writing(sys: WriteSys) {
    sys.action.Ok? && sys.action.value.Send? && sys.machine.offset <= |sys.machine.message|
  }

  function WriteExchange(sys: WriteSys, e: Event): WriteSys
    requires Writing(sys)
  {
    var (machine, action) := WriteNext(sys.machine, Some(e.response));
    WriteSys(machine, action, CardAfter(sys.card, sys.action.value.command, e))
  }

  function WriteStart(card: Card, message: Bytes, chunk: nat): WriteSys {
    var (machine, action) := WriteNext(WriteState(WSelectApplet, message, chunk, 0, 0), None);
    WriteSys(machine, action, card)
  }

  /** The system after the given events; nothing happens once the machine has stopped. */
  function WriteRun(card: Card, message: Bytes, chunk: nat, events: seq<Event>): WriteSys {
    if events == [] then WriteStart(card, message, chunk)
    else
      var before := WriteRun(card, message, chunk, events[..|events| - 1]);
      if Writing(before) then WriteExchange(before, events[|events| - 1]) else before
  }

  /** Every event answers a command; with `honest`, no update is acknowledged but lost. */
  predicate WriteLegal(card: Card, message: Bytes, chunk: nat, events: seq<Event>, honest: bool) {
    events == []
    || (var init, e := events[..|events| - 1], events[|events| - 1];
        var before := WriteRun(card, message, chunk, init);
        && WriteLegal(card, message, chunk, init, honest) && Writing(before)
        && (honest ==> Honest(before.card, before.action.value.command, e)))
  }

  /** Only file `id` differs from the start, and it holds `n` bytes behind a zero length. */
  ghost predicate Rewriting(before: map<nat, Bytes>, files: map<nat, Bytes>, id: nat, message: Bytes, n: nat)
    requires n <= |message|
  {
    id in before && id in files && files == before[id := files[id]] && Partial(files[id], message, n)
  }

  /** What holds of the machine alone while it is waiting for an answer. */
  ghost predicate WriteWaiting(message: Bytes, chunk: nat, sys: WriteSys) {
    var m := sys.machine;
    && m.message == message && m.chunk == chunk && chunk > 0 && |message| <= MAX_MESSAGE_LENGTH
    && m.offset <= |message| && sys.action == Ok(Send(WriteCommand(m)))
    && (m.step !in {WMessage, WFinalLength} ==> m.offset == 0)
    && (m.step == WMessage ==> m.offset < |message|)
    && (m.step == WFinalLength ==> m.offset == |message|)
  }

  /** What holds of the card while the machine is waiting for an answer. */
  ghost predicate WriteCard(before: map<nat, Bytes>, sys: WriteSys)
    requires sys.machine.offset <= |sys.machine.message|
  {
    var m, card := sys.machine, sys.card;
    match m.step
    case WReadCc => card.files == before && card.selected == Some(CC_FILE_ID)
    case WZeroLength => card.files == before && card.selected == Some(m.fileId) && m.fileId in before
    case WMessage => card.selected == Some(m.fileId) && Rewriting(before, card.files, m.fileId, m.message, m.offset)
    case WFinalLength => card.selected == Some(m.fileId) && Rewriting(before, card.files, m.fileId, m.message, m.offset)
    case _ => card.files == before
  }

  lemma WaitingStep(message: Bytes, chunk: nat, sys: WriteSys, e: Event)
    requires WriteWaiting(message, chunk, sys)
    ensures Writing(sys)
    ensures var next := WriteExchange(sys, e); Writing(next) ==> WriteWaiting(message, chunk, next)
    ensures WriteExchange(sys, e).machine.message == message
  {
    hide ParseCc;
  }

  lemma CardStep(before: map<nat, Bytes>, message: Bytes, chunk: nat, sys: WriteSys, e: Event)
    requires WriteWaiting(message, chunk, sys) && WriteCard(before, sys)
    requires Honest(sys.card, WriteCommand(sys.machine), e)
    ensures var next := WriteExchange(sys, e);
            && (Writing(next) ==> WriteWaiting(message, chunk, next) && WriteCard(before, next))
            && AllCrashSafe(before, message, next.card.files)
            && (next.action == Ok(Done(())) ==>
                  next.machine.fileId in next.card.files && Stored(next.card.files[next.machine.fileId], message))
  {
    hide ParseCc, Overwrite, Partial, Stored;
    WaitingStep(message, chunk, sys, e);
    var m, card := sys.machine, sys.card;
    if m.step in {WZeroLength, WMessage, WFinalLength} {
      UpdateStep(before, message, chunk, sys, e);
    }
  }

  lemma UpdateStep(before: map<nat, Bytes>, message: Bytes, chunk: nat, sys: WriteSys, e: Event)
    requires WriteWaiting(message, chunk, sys) && WriteCard(before, sys)
    requires Honest(sys.card, WriteCommand(sys.machine), e)
    requires sys.machine.step in {WZeroLength, WMessage, WFinalLength}
    ensures var next := WriteExchange(sys, e);
            && (Writing(next) ==> WriteCard(before, next))
            && AllCrashSafe(before, message, next.card.files)
            && (next.action == Ok(Done(())) ==>
                  next.machine.fileId in next.card.files && Stored(next.card.files[next.machine.fileId], message))
  {
    hide Be, BeVal, Overwrite, ParseCc, Partial, Stored, CrashSafe, AllCrashSafe, WriteExchange, WriteCard, Honest;
    match sys.machine.step
    case WZeroLength => ZeroStep(before, message, chunk, sys, e);
    case WMessage => ChunkStep(before, message, chunk, sys, e);
    case WFinalLength => FinalStep(before, message, chunk, sys, e);
  }

  lemma ZeroStep(before: map<nat, Bytes>, message: Bytes, chunk: nat, sys: WriteSys, e: Event)
    requires WriteWaiting(message, chunk, sys) && WriteCard(before, sys)
    requires Honest(sys.card, WriteCommand(sys.machine), e)
    requires sys.machine.step == WZeroLength
    ensures var next := WriteExchange(sys, e);
            && (Writing(next) ==> WriteCard(before, next))
            && AllCrashSafe(before, message, next.card.files)
            && (next.action == Ok(Done(())) ==>
                  next.machine.fileId in next.card.files && Stored(next.card.files[next.machine.fileId], message))
  {
    hide Be, BeVal, Overwrite, ParseCc, StatusError, Partial, Stored, CrashSafe, AllCrashSafe;
    var m, card := sys.machine, sys.card;
    var f := card.files[m.fileId];
    StillSafe(before, sys);
    if e.applied {
      ZeroThenPartial(f, message);
      UpdatedFile(before, card.files, m.fileId, Overwrite(f, 0, [0, 0]), message);
    }
  }

  lemma ChunkStep(before: map<nat, Bytes>, message: Bytes, chunk: nat, sys: WriteSys, e: Event)
    requires WriteWaiting(message, chunk, sys) && WriteCard(before, sys)
    requires Honest(sys.card, WriteCommand(sys.machine), e)
    requires sys.machine.step == WMessage
    ensures var next := WriteExchange(sys, e);
            && (Writing(next) ==> WriteCard(before, next))
            && AllCrashSafe(before, message, next.card.files)
            && (next.action == Ok(Done(())) ==>
                  next.machine.fileId in next.card.files && Stored(next.card.files[next.machine.fileId], message))
  {
    hide Be, BeVal, Overwrite, ParseCc, StatusError, Partial, Stored, AllCrashSafe, CardAfter, CanUpdate, Rewriting;
    ChunkOnCard(before, message, sys.machine.fileId, sys.card, sys.machine.offset, Take(sys.machine), e);
  }

  /** The card's side of one fragment: stored or lost, the files stay safe. */
  lemma ChunkOnCard(
    before: map<nat, Bytes>, message: Bytes, id: nat, card: Card, n: nat, take: nat, e: Event)
    requires n + take <= |message| && card.selected == Some(id) && Rewriting(before, card.files, id, message, n)
    ensures var data := message[n..n + take];
            var after := CardAfter(card, UpdateBinary(2 + n, data), e);
            && after.selected == Some(id) && AllCrashSafe(before, message, after.files)
            && (e.applied && CanUpdate(card, 2 + n, data) ==> Rewriting(before, after.files, id, message, n + take))
  {
    hide Be, BeVal, Overwrite, Partial, Stored, CrashSafe, AllCrashSafe;
    var f, data := card.files[id], message[n..n + take];
    UpdatedFile(before, card.files, id, f, message);
    assert card.files[id := f] == card.files;
    if e.applied && CanUpdate(card, 2 + n, data) {
      ChunkExtends(f, message, n, take);
      UpdatedFile(before, card.files, id, Overwrite(f, 2 + n, data), message);
    }
  }

  lemma FinalStep(before: map<nat, Bytes>, message: Bytes, chunk: nat, sys: WriteSys, e: Event)
    requires WriteWaiting(message, chunk, sys) && WriteCard(before, sys)
    requires Honest(sys.card, WriteCommand(sys.machine), e)
    requires sys.machine.step == WFinalLength
    ensures var next := WriteExchange(sys, e);
            && (Writing(next) ==> WriteCard(before, next))
            && AllCrashSafe(before, message, next.card.files)
            && (next.action == Ok(Done(())) ==>
                  next.machine.fileId in next.card.files && Stored(next.card.files[next.machine.fileId], message))
  {
    hide Be, BeVal, Overwrite, ParseCc, StatusError, Partial, Stored, CrashSafe, AllCrashSafe;
    var m, card := sys.machine, sys.card;
    var f := card.files[m.fileId];
    StillSafe(before, sys);
    if e.applied {
      LengthCompletes(f, message);
      UpdatedFile(before, card.files, m.fileId, Overwrite(f, 0, Be(|message|, 2)), message);
    }
  }

  /** The files as they stand are safe, whichever of the three updates is outstanding. */
  lemma StillSafe(before: map<nat, Bytes>, sys: WriteSys)
    requires sys.machine.offset <= |sys.machine.message| && WriteCard(before, sys)
    requires sys.machine.step in {WZeroLength, WMessage, WFinalLength}
    ensures AllCrashSafe(before, sys.machine.message, sys.card.files)
  {
    hide BeVal, Partial, Stored, CrashSafe, AllCrashSafe;
    var id, files := sys.machine.fileId, sys.card.files;
    StepIsSafe(before, sys);
    OneFileSafe(before, files, id, files[id], sys.machine.message);
    assert files[id := files[id]] == files;
  }

  lemma StepIsSafe(before: map<nat, Bytes>, sys: WriteSys)
    requires sys.machine.offset <= |sys.machine.message| && WriteCard(before, sys)
    requires sys.machine.step in {WZeroLength, WMessage, WFinalLength}
    requires sys.machine.fileId in before && sys.machine.fileId in sys.card.files
    ensures CrashSafe(before[sys.machine.fileId], sys.machine.message, sys.card.files[sys.machine.fileId])
  {
    hide BeVal;
  }

  lemma UpdatedFile(before: map<nat, Bytes>, files: map<nat, Bytes>, id: nat, g: Bytes, message: Bytes)
    requires id in before && id in files && files == before[id := files[id]]
    ensures files[id := g] == before[id := g]
    ensures Stored(g, message) ==> AllCrashSafe(before, message, files[id := g])
    ensures (exists n :: 0 <= n <= |message| && Partial(g, message, n)) ==> AllCrashSafe(before, message, files[id := g])
  {
  }

  lemma OneFileSafe(before: map<nat, Bytes>, files: map<nat, Bytes>, id: nat, g: Bytes, message: Bytes)
    requires id in before && id in files && files == before[id := files[id]]
    requires CrashSafe(before[id], message, g)
    ensures AllCrashSafe(before, message, files[id := g])
  {
  }

  /** Induction over every run: the waiting invariant, or a stopped machine with a safe card. */
  lemma {:induction false} WriteInvariant(card: Card, message: Bytes, chunk: nat, events: seq<Event>)
    requires chunk > 0 && |message| <= MAX_MESSAGE_LENGTH
    requires WriteLegal(card, message, chunk, events, true)
    ensures var sys := WriteRun(card, message, chunk, events);
            && (Writing(sys) ==> WriteWaiting(message, chunk, sys) && WriteCard(card.files, sys))
            && AllCrashSafe(card.files, message, sys.card.files)
            && (sys.action == Ok(Done(())) ==>
                  sys.machine.fileId in sys.card.files && Stored(sys.card.files[sys.machine.fileId], message))
  {
    hide WriteExchange, Stored, CrashSafe, Rewriting, Honest;
    if events == [] {
      assert AllCrashSafe(card.files, message, card.files) by { Untouched(card.files, message); }
    } else {
      var init := events[..|events| - 1];
      WriteInvariant(card, message, chunk, init);
      CardStep(card.files, message, chunk, WriteRun(card, message, chunk, init), events[|events| - 1]);
    }
  }

  lemma Untouched(files: map<nat, Bytes>, message: Bytes)
    ensures AllCrashSafe(files, message, files)
  {
  }

  /**
   Crash consistency: at every point of every run, whatever the card answers and whichever
   command was last carried out, each file is untouched, or announces no message, or announces
   and holds the complete new message.
   */
  lemma WriteIsCrashConsistent(card: Card, message: Bytes, o: Options, events: seq<Event>)
    requires NewWrite(message, o).Ok?
    requires WriteLegal(card, message, NewWrite(message, o).value.chunk, events, true)
    ensures var files := WriteRun(card, message, NewWrite(message, o).value.chunk, events).card.files;
            files.Keys == card.files.Keys
            && forall id :: id in files ==> CrashSafe(card.files[id], message, files[id])
  {
    hide CrashSafe, WriteRun, WriteLegal;
    WriteInvariant(card, message, NewWrite(message, o).value.chunk, events);
  }

  // ----- Bounds of a write run

  /** Commands still to be sent, the pending one included. */
  function WriteLeft(s: WriteState): nat
    requires s.chunk > 0 && s.offset <= |s.message|
  {
    var all := CeilDiv(|s.message|, s.chunk);
    match s.step
    case WSelectApplet => 6 + all
    case WSelectCc => 5 + all
    case WReadCc => 4 + all
    case WSelectNdef => 3 + all
    case WZeroLength => 2 + all
    case WMessage => 1 + CeilDiv(|s.message| - s.offset, s.chunk)
    case WFinalLength => 1
  }

  lemma WriteLeftStep(message: Bytes, chunk: nat, sys: WriteSys, e: Event)
    requires WriteWaiting(message, chunk, sys)
    ensures var next := WriteExchange(sys, e);
            && (Writing(next) ==> WriteLeft(next.machine) == WriteLeft(sys.machine) - 1)
            && (next.action == Ok(Done(())) ==> WriteLeft(sys.machine) == 1)
  {
    hide ParseCc, CeilDiv;
    WaitingStep(message, chunk, sys, e);
    NothingLeft(chunk);
    if sys.machine.step == WMessage {
      CeilDivStep(|message| - sys.machine.offset, chunk);
    }
  }

  lemma {:induction false} WriteCount(card: Card, message: Bytes, chunk: nat, events: seq<Event>)
    requires chunk > 0 && |message| <= MAX_MESSAGE_LENGTH
    requires WriteLegal(card, message, chunk, events, false)
    ensures var sys := WriteRun(card, message, chunk, events);
            && (Writing(sys) ==> WriteWaiting(message, chunk, sys)
                                 && |events| + WriteLeft(sys.machine) == 6 + CeilDiv(|message|, chunk))
            && (sys.action == Ok(Done(())) ==> |events| == 6 + CeilDiv(|message|, chunk))
            && |events| <= 6 + CeilDiv(|message|, chunk)
  {
    hide WriteExchange, CeilDiv;
    if events != [] {
      var init := events[..|events| - 1];
      var sys := WriteRun(card, message, chunk, init);
      WriteCount(card, message, chunk, init);
      WaitingStep(message, chunk, sys, events[|events| - 1]);
      WriteLeftStep(message, chunk, sys, events[|events| - 1]);
    }
  }

  /** Against any card at all, a write sends as many commands as were budgeted, and no more. */
  lemma WriteStaysWithinBudget(card: Card, message: Bytes, o: Options, events: seq<Event>)
    requires NewWrite(message, o).Ok?
    requires WriteLegal(card, message, NewWrite(message, o).value.chunk, events, false)
    ensures var chunk := NewWrite(message, o).value.chunk;
            && |events| <= 6 + CeilDiv(|message|, chunk) <= o.maxExchanges
            && (WriteRun(card, message, chunk, events).action == Ok(Done(())) ==>
                  |events| == 6 + CeilDiv(|message|, chunk))
  {
    hide WriteRun, WriteLegal, CeilDiv;
    WriteCount(card, message, NewWrite(message, o).value.chunk, events);
  }

  /** Progress through the preamble, and what the container that was answered allowed. */
  ghost predicate WriteProgress(message: Bytes, m: WriteState, events: seq<Event>) {
    match m.step
    case WSelectApplet => |events| == 0
    case WSelectCc => |events| == 1
    case WReadCc => |events| == 2
    case _ =>
      && |events| >= 3
      && var answer := events[2].response.data;
         && Container(answer) && answer[14] == 0 && m.fileId == DataFile(answer)
         && 2 + |message| <= FileSize(answer)
  }

  lemma {:induction false} WriteProgressHolds(card: Card, message: Bytes, chunk: nat, events: seq<Event>)
    requires chunk > 0 && |message| <= MAX_MESSAGE_LENGTH
    requires WriteLegal(card, message, chunk, events, false)
    ensures var sys := WriteRun(card, message, chunk, events);
            Writing(sys) ==> WriteProgress(message, sys.machine, events)
  {
    hide ParseCc, Container, DataFile, FileSize, CeilDiv, StatusError;
    if events != [] {
      var init := events[..|events| - 1];
      WriteProgressHolds(card, message, chunk, init);
      WriteCount(card, message, chunk, init);
      ContainerExact(events[|events| - 1].response.data);
    }
  }

  /**
   Against any card at all, an update is sent only if the container that was answered allows
   writing, to the file it names, and not past the size it advertises.
   */
  lemma UpdatesStayInside(card: Card, message: Bytes, chunk: nat, events: seq<Event>)
    requires chunk > 0 && |message| <= MAX_MESSAGE_LENGTH
    requires WriteLegal(card, message, chunk, events, false)
    ensures var sys := WriteRun(card, message, chunk, events);
            Writing(sys) && sys.action.value.command.UpdateBinary? ==>
              && |events| >= 4
              && var answer := events[2].response.data;
                 && Container(answer) && answer[14] == 0 && sys.machine.fileId == DataFile(answer)
                 && sys.action.value.command.offset + |sys.action.value.command.data| <= FileSize(answer)
  {
    hide WriteRun, WriteLegal, CeilDiv, BeVal, Container, DataFile, FileSize;
    WriteProgressHolds(card, message, chunk, events);
    WriteCount(card, message, chunk, events);
    WriteFourth(card, message, chunk, events);
  }

  lemma WriteFourth(card: Card, message: Bytes, chunk: nat, events: seq<Event>)
    requires chunk > 0 && |message| <= MAX_MESSAGE_LENGTH
    requires WriteLegal(card, message, chunk, events, false)
    ensures var sys := WriteRun(card, message, chunk, events);
            Writing(sys) && |events| == 3 ==> sys.machine.step == WSelectNdef
  {
    hide CeilDiv, ParseCc;
    if |events| == 3 {
      var init := events[..2];
      WriteProgressHolds(card, message, chunk, init);
      WriteCount(card, message, chunk, init);
    }
  }

  /**
   What the answered container decides: a malformed, a write-protected or a too small one ends the
   write with its own error before anything is updated; any other leads on to the file it names.
   */
  lemma ContainerDecidesWrite(card: Card, message: Bytes, chunk: nat, events: seq<Event>)
    requires chunk > 0 && |message| <= MAX_MESSAGE_LENGTH
    requires WriteLegal(card, message, chunk, events, false) && |events| == 3 && events[2].response.sw == 0x9000
    ensures var sys := WriteRun(card, message, chunk, events);
            var answer := events[2].response.data;
            && sys.action
               == (if !Container(answer) then Err(FailAt(InvalidResponse, Parsing))
                   else if answer[14] != 0 then Err(FailAt(SecurityStatusNotSatisfied, Phase.Command))
                   else if 2 + |message| > FileSize(answer) then Err(FailAt(LimitExceeded, Phase.Command))
                   else Ok(Send(SelectFile(DataFile(answer)))))
            && sys.card.files == card.files
  {
    hide ParseCc, Container, DataFile, FileSize, CeilDiv, StatusError, Overwrite;
    var init := events[..2];
    WriteProgressHolds(card, message, chunk, init);
    WriteCount(card, message, chunk, init);
    ContainerExact(events[2].response.data);
    WritePreamble(card, message, chunk, init);
  }

  lemma {:induction false} WritePreamble(card: Card, message: Bytes, chunk: nat, events: seq<Event>)
    requires chunk > 0 && |message| <= MAX_MESSAGE_LENGTH
    requires WriteLegal(card, message, chunk, events, false) && |events| <= 2
    ensures WriteRun(card, message, chunk, events).card.files == card.files
  {
    hide ParseCc, CeilDiv, StatusError, Overwrite;
    if events != [] {
      var init := events[..|events| - 1];
      WritePreamble(card, message, chunk, init);
      WriteProgressHolds(card, message, chunk, init);
      WriteCount(card, message, chunk, init);
    }
  }

  /** Every update fits the channel it was prepared for: header, Lc and data. */
  lemma UpdatesFitChannel(card: Card, message: Bytes, o: Options, events: seq<Event>)
    requires NewWrite(message, o).Ok?
    requires WriteLegal(card, message, NewWrite(message, o).value.chunk, events, false)
    ensures var sys := WriteRun(card, message, NewWrite(message, o).value.chunk, events);
            Writing(sys) && sys.action.value.command.UpdateBinary? ==>
              |sys.action.value.command.data| <= 240 && 5 + |sys.action.value.command.data| <= o.maxCommandBytes
  {
    hide WriteRun, WriteLegal, CeilDiv, BeVal, Be;
    WriteCount(card, message, NewWrite(message, o).value.chunk, events);
  }
}
