/** Completion of NDEF writes on a working card, and reading the message back. */
module NdefReadback {
  import opened Base
  import opened Ndef
  import opened NdefRuns

  // ----- A card that can hold the message

  /** The container is readable and points at an existing data file of its own. */
  predicate Formatted(card: Card, cc: Capability) {
    && 0xe103 in card.files && Describes(card.files[0xe103], cc)
    && cc.fileId in card.files && cc.fileId != CC_FILE_ID
  }

  predicate Writable(card: Card, cc: Capability, message: Bytes) {
    && Formatted(card, cc) && !cc.readOnly && |message| <= cc.maxMessageLength
    && 2 + |message| <= |card.files[cc.fileId]|
  }

  lemma ContainerLength(card: Card, cc: Capability)
    requires Formatted(card, cc)
    ensures |card.files[CC_FILE_ID]| == CC_LEN && card.files[CC_FILE_ID][0..CC_LEN] == card.files[CC_FILE_ID]
    ensures ParseCc(card.files[CC_FILE_ID]) == Ok(cc)
  {
    ContainerExact(card.files[CC_FILE_ID]);
  }

  /** The first `n` events of an undisturbed write. */
  function IdealWrite(card: Card, message: Bytes, chunk: nat, n: nat): (events: seq<Event>)
    ensures |events| <= n
  {
    if n == 0 then []
    else
      var events := IdealWrite(card, message, chunk, n - 1);
      var sys := WriteRun(card, message, chunk, events);
      if Writing(sys) then events + [IdealEvent(sys.card, sys.action.value.command)] else events
  }

  lemma IdealIsHonest(card: Card, cmd: Cmd)
    ensures Honest(card, cmd, IdealEvent(card, cmd))
  {
  }

  /** The machine follows the container, and the data file keeps its size. */
  ghost predicate IdealWriteState(card: Card, cc: Capability, sys: WriteSys) {
    && (sys.machine.step in {WSelectNdef, WZeroLength, WMessage, WFinalLength} ==> sys.machine.fileId == cc.fileId)
    && cc.fileId in card.files && CC_FILE_ID in card.files && sys.card.files.Keys == card.files.Keys
    && |sys.card.files[cc.fileId]| == |card.files[cc.fileId]|
    && sys.card.files[CC_FILE_ID] == card.files[CC_FILE_ID]
  }

  lemma IdealWriteStep(card: Card, cc: Capability, message: Bytes, chunk: nat, sys: WriteSys)
    requires Writable(card, cc, message)
    requires WriteWaiting(message, chunk, sys) && WriteCard(card.files, sys)
    requires cc.fileId in sys.card.files && CC_FILE_ID in sys.card.files && IdealWriteState(card, cc, sys)
    ensures var e := IdealEvent(sys.card, WriteCommand(sys.machine));
            var next := WriteExchange(sys, e);
            && cc.fileId in next.card.files && CC_FILE_ID in next.card.files && IdealWriteState(card, cc, next)
            && (if sys.machine.step == WFinalLength then next.action == Ok(Done(())) else Writing(next))
  {
    hide ParseCc, Be, BeVal, Rewriting, Overwrite, Describes;
    ContainerLength(card, cc);
    if sys.machine.step in {WMessage, WFinalLength} {
      RewritingKeys(card.files, sys.card.files, sys.machine.fileId, message, sys.machine.offset);
    }
    WriteCommandFits(sys.machine);
  }

  lemma RewritingKeys(before: map<nat, Bytes>, files: map<nat, Bytes>, id: nat, message: Bytes, n: nat)
    requires n <= |message| && Rewriting(before, files, id, message, n)
    ensures files.Keys == before.Keys
  {
  }

  lemma WriteCommandFits(m: WriteState)
    requires m.offset <= |m.message| <= MAX_MESSAGE_LENGTH && m.chunk > 0
    ensures var c := WriteCommand(m);
            c.UpdateBinary? ==> c.offset + |c.data| <= 2 + |m.message|
  {
  }

  lemma {:induction false} IdealWriteRuns(card: Card, cc: Capability, message: Bytes, chunk: nat, n: nat)
    requires Writable(card, cc, message) && chunk > 0 && |message| <= MAX_MESSAGE_LENGTH
    requires n <= 6 + CeilDiv(|message|, chunk)
    ensures var events := IdealWrite(card, message, chunk, n);
            var sys := WriteRun(card, message, chunk, events);
            && |events| == n && WriteLegal(card, message, chunk, events, true) && WriteLegal(card, message, chunk, events, false)
            && cc.fileId in sys.card.files && CC_FILE_ID in sys.card.files && IdealWriteState(card, cc, sys)
            && (if n < 6 + CeilDiv(|message|, chunk) then Writing(sys) else sys.action == Ok(Done(())))
  {
    hide WriteExchange, CeilDiv, IdealEvent, Honest, WriteCard, WriteWaiting, IdealWriteState, Writable;
    if n > 0 {
      IdealWriteRuns(card, cc, message, chunk, n - 1);
      var init := IdealWrite(card, message, chunk, n - 1);
      var sys := WriteRun(card, message, chunk, init);
      var e := IdealEvent(sys.card, sys.action.value.command);
      var events := init + [e];
      assert events[..|events| - 1] == init;
      WriteInvariant(card, message, chunk, init);
      WriteCount(card, message, chunk, init);
      IdealIsHonest(sys.card, sys.action.value.command);
      WaitingCommand(message, chunk, sys);
      IdealWriteStep(card, cc, message, chunk, sys);
      WriteCount(card, message, chunk, events);
    } else {
      IdealWriteStart(card, cc, message, chunk);
    }
  }

  lemma WaitingCommand(message: Bytes, chunk: nat, sys: WriteSys)
    requires WriteWaiting(message, chunk, sys)
    ensures sys.machine.offset <= |sys.machine.message| && sys.action == Ok(Send(WriteCommand(sys.machine)))
    ensures WriteLeft(sys.machine) == 1 <==> sys.machine.step == WFinalLength
  {
    hide WriteCommand;
    if sys.machine.step == WMessage {
      CeilDivStep(|message| - sys.machine.offset, chunk);
    }
  }

  lemma IdealWriteStart(card: Card, cc: Capability, message: Bytes, chunk: nat)
    requires Writable(card, cc, message)
    ensures var sys := WriteRun(card, message, chunk, []);
            && Writing(sys) && cc.fileId in sys.card.files && CC_FILE_ID in sys.card.files
            && IdealWriteState(card, cc, sys)
  {
    hide ParseCc;
  }

  /** An undisturbed write completes after exactly the budgeted commands and stores the message. */
  lemma WriteCompletes(card: Card, cc: Capability, message: Bytes, chunk: nat)
    requires Writable(card, cc, message) && chunk > 0 && |message| <= MAX_MESSAGE_LENGTH
    ensures var n := 6 + CeilDiv(|message|, chunk);
            var events := IdealWrite(card, message, chunk, n);
            var sys := WriteRun(card, message, chunk, events);
            && |events| == n && sys.action == Ok(Done(()))
            && Formatted(sys.card, cc) && Stored(sys.card.files[cc.fileId], message)
  {
    hide CeilDiv, Stored, WriteRun, WriteLegal, IdealWrite, ParseCc;
    var n := 6 + CeilDiv(|message|, chunk);
    var events := IdealWrite(card, message, chunk, n);
    IdealWriteRuns(card, cc, message, chunk, n);
    WriteInvariant(card, message, chunk, events);
    DoneStep(card, message, chunk, events);
  }

  lemma DoneStep(card: Card, message: Bytes, chunk: nat, events: seq<Event>)
    requires chunk > 0 && |message| <= MAX_MESSAGE_LENGTH && WriteLegal(card, message, chunk, events, true)
    requires WriteRun(card, message, chunk, events).action == Ok(Done(()))
    ensures WriteRun(card, message, chunk, events).machine.step == WFinalLength
  {
    hide ParseCc;
    if events != [] {
      WriteInvariant(card, message, chunk, events[..|events| - 1]);
    }
  }

  // ----- Read runs

  datatype ReadSys = ReadSys(machine: ReadState, action: Result<Action<Cmd, Bytes>>, card: Card)

  predicate Reading(sys: ReadSys) { sys.action.Ok? && sys.action.value.Send? }

  function ReadExchange(sys: ReadSys, e: Event): ReadSys
    requires Reading(sys)
  {
    var (machine, action) := ReadNext(sys.machine, Some(e.response));
    ReadSys(machine, action, CardAfter(sys.card, sys.action.value.command, e))
  }

  function ReadStart(card: Card, chunk: nat): ReadSys {
    var (machine, action) := ReadNext(ReadState(RSelectApplet, chunk, 0, MAX_MESSAGE_LENGTH, 0, 0, []), None);
    ReadSys(machine, action, card)
  }

  function ReadRun(card: Card, chunk: nat, events: seq<Event>): ReadSys {
    if events == [] then ReadStart(card, chunk)
    else
      var before := ReadRun(card, chunk, events[..|events| - 1]);
      if Reading(before) then ReadExchange(before, events[|events| - 1]) else before
  }

  predicate ReadLegal(card: Card, chunk: nat, events: seq<Event>) {
    events == []
    || (ReadLegal(card, chunk, events[..|events| - 1]) && Reading(ReadRun(card, chunk, events[..|events| - 1])))
  }

  /** What holds of the machine while it waits, whatever the card has answered. */
  ghost predicate ReadWaiting(chunk: nat, sys: ReadSys, events: seq<Event>) {
    var m := sys.machine;
    && m.chunk == chunk > 0 && sys.action == Ok(Send(ReadCommand(m)))
    && m.maxMessage <= MAX_MESSAGE_LENGTH
    && (m.step in {RSelectNdef, RReadNlen, RMessage} ==>
          |events| >= 3 && Container(events[2].response.data) && m.fileId == DataFile(events[2].response.data)
          && m.maxMessage + 2 <= FileSize(events[2].response.data))
    && match m.step
       case RSelectApplet => |events| == 0 && m.bytes == []
       case RSelectCc => |events| == 1 && m.bytes == []
       case RReadCc => |events| == 2 && m.bytes == []
       case RSelectNdef => |events| == 3 && m.bytes == []
       case RReadNlen => |events| == 4 && m.bytes == []
       case RMessage =>
         && m.remaining > 0 && |m.bytes| + m.remaining <= m.maxMessage && m.offset == 2 + |m.bytes|
         && |events| + CeilDiv(m.remaining, chunk) == 5 + CeilDiv(|m.bytes| + m.remaining, chunk)
  }

  lemma ReadWaitingStep(chunk: nat, sys: ReadSys, events: seq<Event>, e: Event)
    requires ReadWaiting(chunk, sys, events)
    ensures var next := ReadExchange(sys, e);
            && (Reading(next) ==> ReadWaiting(chunk, next, events + [e]))
            && (next.action.Ok? && next.action.value.Done? ==>
                  && |next.action.value.output| <= MAX_MESSAGE_LENGTH
                  && |events| + 1 == 5 + CeilDiv(|next.action.value.output|, chunk))
  {
    hide BeVal, CeilDiv, StatusError;
    NothingLeft(chunk);
    if sys.machine.step == RReadCc {
      ContainerExact(e.response.data);
    }
    if sys.machine.step == RMessage {
      CeilDivStep(sys.machine.remaining, chunk);
    }
  }

  lemma {:induction false} ReadCount(card: Card, chunk: nat, events: seq<Event>)
    requires chunk > 0 && ReadLegal(card, chunk, events)
    ensures var sys := ReadRun(card, chunk, events);
            && (Reading(sys) ==> ReadWaiting(chunk, sys, events))
            && (sys.action.Ok? && sys.action.value.Done? ==>
                  && |sys.action.value.output| <= MAX_MESSAGE_LENGTH
                  && |events| == 5 + CeilDiv(|sys.action.value.output|, chunk))
  {
    hide ReadExchange, CeilDiv;
    if events != [] {
      var init := events[..|events| - 1];
      ReadCount(card, chunk, init);
      ReadWaitingStep(chunk, ReadRun(card, chunk, init), init, events[|events| - 1]);
      assert init + [events[|events| - 1]] == events;
    }
  }

  /**
   Against any card at all, a read of the file named by the container that was answered stays
   within the size it advertises, and fits the chunk.
   */
  lemma ReadsStayInside(card: Card, chunk: nat, events: seq<Event>)
    requires chunk > 0 && ReadLegal(card, chunk, events)
    ensures var sys := ReadRun(card, chunk, events);
            Reading(sys) && |events| >= 4 ==>
              && Container(events[2].response.data) && sys.machine.fileId == DataFile(events[2].response.data)
              && var c := sys.action.value.command;
                 c.ReadBinary? && c.offset + c.length <= FileSize(events[2].response.data)
                 && (|events| >= 5 ==> 0 < c.length <= chunk)
  {
    hide ReadRun, ReadLegal, CeilDiv, Container, DataFile, FileSize;
    ReadCount(card, chunk, events);
  }

  /** Every piece of the message fits the channel it was prepared for: data and status word. */
  lemma ReadsFitChannel(card: Card, o: Options, events: seq<Event>)
    requires NewRead(o).Ok? && ReadLegal(card, NewRead(o).value.chunk, events) && |events| >= 5
    ensures var sys := ReadRun(card, NewRead(o).value.chunk, events);
            Reading(sys) ==>
              && sys.action.value.command.ReadBinary?
              && sys.action.value.command.length <= 240
              && sys.action.value.command.length + 2 <= o.maxResponseBytes
  {
    hide ReadRun, ReadLegal, CeilDiv, Container, DataFile, FileSize;
    ReadsStayInside(card, NewRead(o).value.chunk, events);
  }

  lemma CeilDivMonotone(a: nat, b: nat, chunk: nat)
    requires chunk > 0 && a <= b
    ensures CeilDiv(a, chunk) <= CeilDiv(b, chunk)
    decreases b
  {
    hide CeilDiv;
    if a == 0 {
      NothingLeft(chunk);
    } else {
      CeilDivStep(a, chunk);
      CeilDivStep(b, chunk);
      CeilDivMonotone(a - Min(a, chunk), b - Min(b, chunk), chunk);
    }
  }

  /** Message bytes that the announced length still lets the reader ask for. */
  function Outstanding(m: ReadState): nat { if m.step == RMessage then m.remaining else 0 }

  /** Against any card at all, a read stays within the budget that was checked before it began. */
  lemma ReadStaysWithinBudget(card: Card, o: Options, events: seq<Event>)
    requires NewRead(o).Ok? && ReadLegal(card, NewRead(o).value.chunk, events)
    ensures var chunk := NewRead(o).value.chunk;
            var sys := ReadRun(card, chunk, events);
            && (Reading(sys) ==>
                  && |events| + 1 <= o.maxExchanges
                  && CC_LEN + 2 + |sys.machine.bytes| + Outstanding(sys.machine) <= o.maxTotalResponseBytes)
            && (sys.action.Ok? && sys.action.value.Done? ==>
                  && |events| == 5 + CeilDiv(|sys.action.value.output|, chunk) <= o.maxExchanges
                  && CC_LEN + 2 + |sys.action.value.output| <= o.maxTotalResponseBytes)
  {
    hide ReadRun, ReadLegal, CeilDiv, ReadCommand;
    var chunk := NewRead(o).value.chunk;
    ReadCount(card, chunk, events);
    var sys := ReadRun(card, chunk, events);
    if Reading(sys) && sys.machine.step == RMessage {
      CeilDivStep(sys.machine.remaining, chunk);
      CeilDivMonotone(|sys.machine.bytes| + sys.machine.remaining, MAX_MESSAGE_LENGTH, chunk);
    } else if sys.action.Ok? && sys.action.value.Done? {
      CeilDivMonotone(|sys.action.value.output|, MAX_MESSAGE_LENGTH, chunk);
    }
  }

  // ----- Reading back

  function IdealRead(card: Card, chunk: nat, n: nat): (events: seq<Event>)
    ensures |events| <= n
  {
    if n == 0 then []
    else
      var events := IdealRead(card, chunk, n - 1);
      var sys := ReadRun(card, chunk, events);
      if Reading(sys) then events + [IdealEvent(sys.card, sys.action.value.command)] else events
  }

  /** The machine has read a prefix of the stored message from the right file. */
  ghost predicate ReadingBack(card: Card, cc: Capability, message: Bytes, sys: ReadSys) {
    var m := sys.machine;
    && sys.card.files == card.files
    && (m.step == RReadCc ==> sys.card.selected == Some(CC_FILE_ID))
    && (m.step in {RSelectNdef, RReadNlen, RMessage} ==>
          m.fileId == cc.fileId && m.maxMessage == cc.maxMessageLength)
    && (m.step in {RReadNlen, RMessage} ==> sys.card.selected == Some(cc.fileId))
    && (m.step == RMessage ==>
          && |m.bytes| + m.remaining == |message| && m.bytes == message[..|m.bytes|])
  }

  lemma ReadingBackStep(card: Card, cc: Capability, message: Bytes, chunk: nat, sys: ReadSys, events: seq<Event>)
    requires Formatted(card, cc) && Stored(card.files[cc.fileId], message) && |message| <= cc.maxMessageLength
    requires ReadWaiting(chunk, sys, events) && ReadingBack(card, cc, message, sys)
    ensures var next := ReadExchange(sys, IdealEvent(sys.card, ReadCommand(sys.machine)));
            && (Reading(next) ==> ReadingBack(card, cc, message, next))
            && (!Reading(next) ==> next.action == Ok(Done(message)))
  {
    hide CeilDiv, BeVal, ParseCc, Describes, Container, DataFile, FileSize, StatusError;
    ContainerLength(card, cc);
    var m, f := sys.machine, card.files[cc.fileId];
    if m.step == RReadNlen {
      assert f[0..2] == f[..2];
      assert message[..0] == [];
      assert |message| == 0 ==> message == [];
    } else if m.step == RMessage {
      var want := Min(m.remaining, chunk);
      var at := |m.bytes|;
      SliceOfSlice(f, 2, |message|, at, want);
      assert message[..at + want] == message[..at] + message[at..at + want];
      assert message[..|message|] == message;
    }
  }

  lemma SliceOfSlice(f: Bytes, start: nat, length: nat, at: nat, want: nat)
    requires start + length <= |f| && at + want <= length
    ensures f[start + at..start + at + want] == f[start..start + length][at..at + want]
  {
    var a, b := f[start + at..start + at + want], f[start..start + length][at..at + want];
    assert |a| == |b|;
    forall i | 0 <= i < want ensures a[i] == b[i] {
      assert b[i] == f[start..start + length][at + i];
    }
  }

  lemma {:induction false} IdealReadRuns(card: Card, cc: Capability, message: Bytes, chunk: nat, n: nat)
    requires Formatted(card, cc) && Stored(card.files[cc.fileId], message) && |message| <= cc.maxMessageLength
    requires chunk > 0 && n <= 5 + CeilDiv(|message|, chunk)
    ensures var events := IdealRead(card, chunk, n);
            var sys := ReadRun(card, chunk, events);
            && |events| == n && ReadLegal(card, chunk, events)
            && (Reading(sys) ==> ReadingBack(card, cc, message, sys))
            && (if n < 5 + CeilDiv(|message|, chunk) then Reading(sys) else sys.action == Ok(Done(message)))
  {
    hide ReadExchange, CeilDiv, IdealEvent, ReadingBack, ReadWaiting, Stored, Formatted;
    if n == 0 {
      ReadingBackStart(card, cc, message, chunk);
    } else {
      IdealReadRuns(card, cc, message, chunk, n - 1);
      var init := IdealRead(card, chunk, n - 1);
      var sys := ReadRun(card, chunk, init);
      var e := IdealEvent(sys.card, sys.action.value.command);
      var events := init + [e];
      assert events[..|events| - 1] == init;
      ReadCount(card, chunk, init);
      ReadCommandOf(chunk, sys, init);
      ReadingBackStep(card, cc, message, chunk, sys, init);
      ReadCount(card, chunk, events);
      ReadLeft(card, cc, message, chunk, events);
    }
  }

  lemma ReadingBackStart(card: Card, cc: Capability, message: Bytes, chunk: nat)
    ensures Reading(ReadRun(card, chunk, [])) && ReadingBack(card, cc, message, ReadRun(card, chunk, []))
  {
  }

  lemma ReadCommandOf(chunk: nat, sys: ReadSys, events: seq<Event>)
    requires ReadWaiting(chunk, sys, events)
    ensures sys.action == Ok(Send(ReadCommand(sys.machine)))
  {
    hide ReadCommand;
  }

  /** A read still waiting has not used up the count of the stored message. */
  lemma ReadLeft(card: Card, cc: Capability, message: Bytes, chunk: nat, events: seq<Event>)
    requires chunk > 0 && ReadLegal(card, chunk, events)
    requires var sys := ReadRun(card, chunk, events); Reading(sys) ==> ReadingBack(card, cc, message, sys)
    ensures Reading(ReadRun(card, chunk, events)) ==> |events| < 5 + CeilDiv(|message|, chunk)
  {
    hide ReadRun, ReadLegal, CeilDiv, ReadCommand;
    ReadCount(card, chunk, events);
    var sys := ReadRun(card, chunk, events);
    if Reading(sys) && sys.machine.step == RMessage {
      CeilDivStep(sys.machine.remaining, chunk);
    }
  }

  // ----- Any completed write

  /** The machine follows the card's own container, which stays as it was. */
  ghost predicate FollowsContainer(card: Card, cc: Capability, message: Bytes, sys: WriteSys) {
    && sys.card.files.Keys == card.files.Keys
    && CC_FILE_ID in card.files && sys.card.files[CC_FILE_ID] == card.files[CC_FILE_ID]
    && (sys.machine.step in {WSelectNdef, WZeroLength, WMessage, WFinalLength} ==>
          sys.machine.fileId == cc.fileId && |message| <= cc.maxMessageLength)
  }

  lemma FollowsStep(card: Card, cc: Capability, message: Bytes, chunk: nat, sys: WriteSys, events: seq<Event>, e: Event)
    requires Formatted(card, cc) && FollowsContainer(card, cc, message, sys)
    requires WriteWaiting(message, chunk, sys) && WriteCard(card.files, sys)
    requires WriteProgress(message, sys.machine, events)
    requires |events| == 2 ==> e.response.data == card.files[CC_FILE_ID]
    ensures Writing(sys) && FollowsContainer(card, cc, message, WriteExchange(sys, e))
  {
    hide ParseCc, Be, BeVal, Rewriting, Overwrite, StatusError, Describes;
    ContainerLength(card, cc);
  }

  /** The container was read truthfully, if it was read. */
  predicate TruthfulContainer(card: Card, events: seq<Event>) {
    |events| > 2 && CC_FILE_ID in card.files ==> events[2].response.data == card.files[CC_FILE_ID]
  }

  lemma {:induction false} HonestIsLegal(card: Card, message: Bytes, chunk: nat, events: seq<Event>)
    requires WriteLegal(card, message, chunk, events, true)
    ensures WriteLegal(card, message, chunk, events, false)
    decreases events
  {
    hide WriteRun, Honest;
    if events != [] {
      HonestIsLegal(card, message, chunk, events[..|events| - 1]);
    }
  }

  lemma {:induction false} WriteFollows(card: Card, cc: Capability, message: Bytes, chunk: nat, events: seq<Event>)
    requires Formatted(card, cc) && chunk > 0 && |message| <= MAX_MESSAGE_LENGTH
    requires WriteLegal(card, message, chunk, events, true) && TruthfulContainer(card, events)
    ensures FollowsContainer(card, cc, message, WriteRun(card, message, chunk, events))
    decreases events
  {
    hide WriteExchange, ParseCc, WriteCard, WriteWaiting, Honest, WriteProgress;
    if events != [] {
      var init := events[..|events| - 1];
      var sys := WriteRun(card, message, chunk, init);
      WriteFollows(card, cc, message, chunk, init);
      WriteInvariant(card, message, chunk, init);
      HonestIsLegal(card, message, chunk, init);
      WriteProgressHolds(card, message, chunk, init);
      FollowsStep(card, cc, message, chunk, sys, init, events[|events| - 1]);
    }
  }

  /**
   Read after write: any write that reports success, on an honest card that reported its
   container truthfully, followed by an undisturbed read on the same card returns the message,
   for any two chunk sizes, in exactly the announced number of commands.
   */
  lemma ReadAfterWrite(
    card: Card, cc: Capability, message: Bytes, writeChunk: nat, readChunk: nat, events: seq<Event>)
    requires Formatted(card, cc) && |message| <= MAX_MESSAGE_LENGTH && writeChunk > 0 && readChunk > 0
    requires WriteLegal(card, message, writeChunk, events, true) && TruthfulContainer(card, events)
    requires WriteRun(card, message, writeChunk, events).action == Ok(Done(()))
    ensures |events| == 6 + CeilDiv(|message|, writeChunk)
    ensures var written := WriteRun(card, message, writeChunk, events);
            var n := 5 + CeilDiv(|message|, readChunk);
            && |IdealRead(written.card, readChunk, n)| == n
            && ReadRun(written.card, readChunk, IdealRead(written.card, readChunk, n)).action == Ok(Done(message))
  {
    hide CeilDiv, WriteRun, WriteLegal, ReadRun, IdealRead, Stored, ParseCc, AllCrashSafe;
    var written := WriteRun(card, message, writeChunk, events);
    WriteInvariant(card, message, writeChunk, events);
    HonestIsLegal(card, message, writeChunk, events);
    WriteCount(card, message, writeChunk, events);
    WriteFollows(card, cc, message, writeChunk, events);
    DoneStep(card, message, writeChunk, events);
    IdealReadRuns(written.card, cc, message, readChunk, 5 + CeilDiv(|message|, readChunk));
  }

  /** On a card that can hold the message such a write exists: the undisturbed one. */
  lemma UndisturbedReadBack(card: Card, cc: Capability, message: Bytes, writeChunk: nat, readChunk: nat)
    requires Writable(card, cc, message) && |message| <= MAX_MESSAGE_LENGTH
    requires writeChunk > 0 && readChunk > 0
    ensures var written := WriteRun(card, message, writeChunk,
                                    IdealWrite(card, message, writeChunk, 6 + CeilDiv(|message|, writeChunk)));
            var n := 5 + CeilDiv(|message|, readChunk);
            && written.action == Ok(Done(()))
            && ReadRun(written.card, readChunk, IdealRead(written.card, readChunk, n)).action == Ok(Done(message))
  {
    hide CeilDiv, WriteRun, ReadRun, IdealRead, IdealWrite, Stored, ParseCc;
    WriteCompletes(card, cc, message, writeChunk);
    var written := WriteRun(card, message, writeChunk,
                            IdealWrite(card, message, writeChunk, 6 + CeilDiv(|message|, writeChunk)));
    IdealReadRuns(written.card, cc, message, readChunk, 5 + CeilDiv(|message|, readChunk));
  }
}
