/** The NDEF read and write machines: a Type 4 Tag data file moved in explicit offset chunks. */
module Ndef {
  import opened Base

  const CC_FILE_ID: nat := 0xe103
  const CC_LEN: nat := 15
  const CHUNK: nat := 240
  const MAX_MESSAGE_LENGTH: nat := 1022

  datatype Cmd =
    | SelectApplet
    | SelectFile(id: nat)
    | ReadBinary(offset: nat, length: nat)
    | UpdateBinary(offset: nat, data: Bytes)

  datatype Capability = Capability(fileId: nat, maxMessageLength: nat, readOnly: bool)

  /** `as u16` in the command builders. */
  function U16(n: nat): nat { n % 0x1_0000 }

  function MaxFileSize(cc: Bytes): nat
    requires |cc| == CC_LEN
  {
    BeVal(cc[11..13])
  }

  function ParseCc(data: Bytes): Result<Capability> {
    if |data| != CC_LEN || data[7] != 0x04 || data[8] != 0x06 then Err(Malformed())
    else if MaxFileSize(data) < 2 then Err(Malformed())
    else Ok(Capability(BeVal(data[9..11]), Min(MaxFileSize(data) - 2, MAX_MESSAGE_LENGTH), data[14] != 0))
  }

  // ----- The container, read straight off its bytes

  /** Fifteen bytes with one NDEF file control TLV, of a file that can hold its own length field. */
  predicate Container(data: Bytes) {
    |data| == 15 && data[7] == 0x04 && data[8] == 0x06 && FileSize(data) >= 2
  }

  function DataFile(data: Bytes): int
    requires |data| == 15
  {
    256 * (data[9] as int) + data[10]
  }

  function FileSize(data: Bytes): int
    requires |data| == 15
  {
    256 * (data[11] as int) + data[12]
  }

  predicate Describes(data: Bytes, cc: Capability) {
    Container(data) && cc == Capability(DataFile(data), Min(FileSize(data) - 2, 1022), data[14] != 0)
  }

  /** The container parser accepts exactly such bytes and reads these fields. */
  lemma ContainerExact(data: Bytes)
    ensures ParseCc(data).Ok? <==> Container(data)
    ensures ParseCc(data).Ok? ==> Describes(data, ParseCc(data).value)
    ensures ParseCc(data).Err? ==> ParseCc(data).error == Malformed()
  {
    if |data| == 15 {
      BeVal2(data[9..11]);
      BeVal2(data[11..13]);
    }
  }

  // ----- Options and preflight

  datatype Options = Options(
    maxCommandBytes: nat,
    maxResponseBytes: nat,
    maxTotalResponseBytes: nat,
    maxExchanges: nat,
    maxInputBytes: nat)

  predicate ValidOptions(o: Options) {
    && o.maxCommandBytes >= 5 && o.maxResponseBytes >= 3
    && o.maxExchanges > 0 && o.maxTotalResponseBytes > 0 && o.maxInputBytes > 0
  }

  function ReadChunk(o: Options): (chunk: nat)
    requires ValidOptions(o)
    ensures 1 <= chunk <= CHUNK
  {
    Min(CHUNK, o.maxResponseBytes - 2)
  }

  function WriteChunk(o: Options): Result<nat> {
    var chunk := Min(CHUNK, if o.maxCommandBytes < 6 then 0 else o.maxCommandBytes - 6);
    if chunk == 0 then Err(Fail(LimitExceeded)) else Ok(chunk)
  }

  /** `read_message`: the budget must cover the longest message any card may hold. */
  function NewRead(o: Options): Result<ReadState> {
    if !ValidOptions(o) then Err(Fail(InvalidArgument))
    else if o.maxTotalResponseBytes < CC_LEN + 2 + MAX_MESSAGE_LENGTH then Err(Fail(LimitExceeded))
    else
      var chunk := ReadChunk(o);
      if o.maxExchanges < 5 + CeilDiv(MAX_MESSAGE_LENGTH, chunk) then Err(Fail(LimitExceeded))
      else Ok(ReadState(RSelectApplet, chunk, 0, MAX_MESSAGE_LENGTH, 0, 0, []))
  }

  /** `write_message`: the budget must cover this message. */
  function NewWrite(message: Bytes, o: Options): Result<WriteState> {
    if !ValidOptions(o) then Err(Fail(InvalidArgument))
    else if |message| > MAX_MESSAGE_LENGTH then Err(Fail(InvalidArgument))
    else
      var chunk := WriteChunk(o);
      if chunk.Err? then Err(chunk.error)
      else if o.maxExchanges < 6 + CeilDiv(|message|, chunk.value) || o.maxTotalResponseBytes < CC_LEN then
        Err(Fail(LimitExceeded))
      else Ok(WriteState(WSelectApplet, message, chunk.value, 0, 0))
  }

  /** The preflights refuse exactly what the budgets cannot carry. */
  lemma AdmittedIff(message: Bytes, o: Options)
    requires ValidOptions(o)
    ensures NewWrite(message, o).Ok?
       <==> && |message| <= 1022 && o.maxCommandBytes >= 7 && o.maxTotalResponseBytes >= 15
            && o.maxExchanges >= 6 + CeilDiv(|message|, Min(240, o.maxCommandBytes - 6))
    ensures NewWrite(message, o).Err? ==>
              NewWrite(message, o).error == Fail(if |message| > 1022 then InvalidArgument else LimitExceeded)
    ensures NewRead(o).Ok?
       <==> && o.maxTotalResponseBytes >= 15 + 2 + 1022
            && o.maxExchanges >= 5 + CeilDiv(1022, Min(240, o.maxResponseBytes - 2))
    ensures NewRead(o).Err? ==> NewRead(o).error == Fail(LimitExceeded)
  {
    hide CeilDiv;
  }

  // ----- Reading

  datatype ReadStep = RSelectApplet | RSelectCc | RReadCc | RSelectNdef | RReadNlen | RMessage

  datatype ReadState = ReadState(
    step: ReadStep,
    chunk: nat,
    fileId: nat,
    maxMessage: nat,
    offset: nat,
    remaining: nat,
    bytes: Bytes)

  function ReadCommand(s: ReadState): Cmd {
    match s.step
    case RSelectApplet => SelectApplet
    case RSelectCc => SelectFile(CC_FILE_ID)
    case RReadCc => ReadBinary(0, CC_LEN)
    case RSelectNdef => SelectFile(s.fileId)
    case RReadNlen => ReadBinary(0, 2)
    case RMessage => ReadBinary(U16(s.offset), Min(s.remaining, s.chunk))
  }

  function ReadSend(s: ReadState): (ReadState, Result<Action<Cmd, Bytes>>) { (s, Ok(Send(ReadCommand(s)))) }

  function ReadNext(s: ReadState, response: Option<Response>): (ReadState, Result<Action<Cmd, Bytes>>) {
    if response.None? then ReadSend(s)
    else
      var r := response.value;
      if r.sw != SUCCESS then
        (s, Err(StatusError(r.sw, if s.step == RSelectApplet then Base.Select else Base.Command, false)))
      else
        match s.step
        case RSelectApplet => ReadSend(s.(step := RSelectCc))
        case RSelectCc => ReadSend(s.(step := RReadCc))
        case RReadCc =>
          var cc := ParseCc(r.data);
          if cc.Err? then (s, Err(cc.error))
          else ReadSend(s.(fileId := cc.value.fileId, maxMessage := cc.value.maxMessageLength, step := RSelectNdef))
        case RSelectNdef => ReadSend(s.(step := RReadNlen))
        case RReadNlen =>
          if |r.data| != 2 || BeVal(r.data) > s.maxMessage then (s, Err(Malformed()))
          else
            var s' := s.(remaining := BeVal(r.data), offset := 2, step := RMessage);
            if BeVal(r.data) == 0 then (s', Ok(Done([]))) else ReadSend(s')
        case RMessage =>
          var want := Min(s.remaining, s.chunk);
          if |r.data| != want then (s, Err(Malformed()))
          else
            var all := s.bytes + r.data;
            if s.remaining == want then
              (s.(bytes := [], remaining := 0, offset := s.offset + want), Ok(Done(all)))
            else ReadSend(s.(bytes := all, remaining := s.remaining - want, offset := s.offset + want))
  }

  class ReadMachine {
    const chunk: nat
    var step: ReadStep
    var fileId: nat
    var maxMessage: nat
    var offset: nat
    var remaining: nat
    var bytes: Bytes

    constructor (chunk: nat)
      ensures Current() == ReadState(RSelectApplet, chunk, 0, MAX_MESSAGE_LENGTH, 0, 0, [])
    {
      this.chunk, step, fileId := chunk, RSelectApplet, 0;
      maxMessage, offset, remaining, bytes := MAX_MESSAGE_LENGTH, 0, 0, [];
    }

    function Current(): ReadState
      reads this
    {
      ReadState(step, chunk, fileId, maxMessage, offset, remaining, bytes)
    }

    method Next(response: Option<Response>) returns (r: Result<Action<Cmd, Bytes>>)
      modifies this
      ensures (Current(), r) == ReadNext(old(Current()), response)
    {
      if response.Some? {
        var answer := response.value;
        if answer.sw != SUCCESS {
          return Err(StatusError(answer.sw, if step == RSelectApplet then Base.Select else Base.Command, false));
        }
        match step {
          case RSelectApplet => step := RSelectCc;
          case RSelectCc => step := RReadCc;
          case RReadCc =>
            var cc := ParseCc(answer.data);
            if cc.Err? {
              return Err(cc.error);
            }
            fileId := cc.value.fileId;
            maxMessage := cc.value.maxMessageLength;
            step := RSelectNdef;
          case RSelectNdef => step := RReadNlen;
          case RReadNlen =>
            if |answer.data| != 2 {
              return Err(Malformed());
            }
            var nlen := BeVal(answer.data);
            if nlen > maxMessage {
              return Err(Malformed());
            }
            remaining := nlen;
            offset := 2;
            step := RMessage;
            if nlen == 0 {
              return Ok(Done([]));
            }
          case RMessage =>
            var want := Min(remaining, chunk);
            if |answer.data| != want {
              return Err(Malformed());
            }
            bytes := bytes + answer.data;
            remaining := remaining - want;
            offset := offset + want;
            if remaining == 0 {
              var message := bytes;
              bytes := [];
              return Ok(Done(message));
            }
        }
      }
      return Ok(Send(ReadCommand(Current())));
    }
  }

  // ----- Writing

  datatype WriteStep =
    WSelectApplet | WSelectCc | WReadCc | WSelectNdef | WZeroLength | WMessage | WFinalLength

  datatype WriteState = WriteState(step: WriteStep, message: Bytes, chunk: nat, fileId: nat, offset: nat)

  function Take(s: WriteState): int { Min(|s.message| - s.offset, s.chunk) }

  function WriteCommand(s: WriteState): Cmd
    requires s.offset <= |s.message|
  {
    match s.step
    case WSelectApplet => SelectApplet
    case WSelectCc => SelectFile(CC_FILE_ID)
    case WReadCc => ReadBinary(0, CC_LEN)
    case WSelectNdef => SelectFile(s.fileId)
    case WZeroLength => UpdateBinary(0, [0, 0])
    case WMessage => UpdateBinary(U16(2 + U16(s.offset)), s.message[s.offset..s.offset + Take(s)])
    case WFinalLength => UpdateBinary(0, Be(|s.message|, 2))
  }

  function WriteSend(s: WriteState): (WriteState, Result<Action<Cmd, ()>>)
    requires s.offset <= |s.message|
  {
    (s, Ok(Send(WriteCommand(s))))
  }

  function WriteNext(s: WriteState, response: Option<Response>): (WriteState, Result<Action<Cmd, ()>>)
    requires s.offset <= |s.message|
  {
    if response.None? then WriteSend(s)
    else
      var r := response.value;
      if r.sw != SUCCESS then
        (s, Err(StatusError(r.sw, if s.step == WSelectApplet then Base.Select else Base.Command, false)))
      else
        match s.step
        case WSelectApplet => WriteSend(s.(step := WSelectCc))
        case WSelectCc => WriteSend(s.(step := WReadCc))
        case WReadCc =>
          var cc := ParseCc(r.data);
          if cc.Err? then (s, Err(cc.error))
          else if cc.value.readOnly then (s, Err(FailAt(SecurityStatusNotSatisfied, Base.Command)))
          else if |s.message| > cc.value.maxMessageLength then (s, Err(FailAt(LimitExceeded, Base.Command)))
          else WriteSend(s.(fileId := cc.value.fileId, step := WSelectNdef))
        case WSelectNdef => WriteSend(s.(step := WZeroLength))
        case WZeroLength => WriteSend(s.(step := if s.message == [] then WFinalLength else WMessage))
        case WMessage =>
          var s' := s.(offset := s.offset + Take(s));
          WriteSend(if s'.offset == |s.message| then s'.(step := WFinalLength) else s')
        case WFinalLength => (s, Ok(Done(())))
  }

  class WriteMachine {
    const message: Bytes
    const chunk: nat
    var step: WriteStep
    var fileId: nat
    var offset: nat

    constructor (message: Bytes, chunk: nat)
      ensures Current() == WriteState(WSelectApplet, message, chunk, 0, 0)
    {
      this.message, this.chunk := message, chunk;
      step, fileId, offset := WSelectApplet, 0, 0;
    }

    function Current(): WriteState
      reads this
    {
      WriteState(step, message, chunk, fileId, offset)
    }

    method Next(response: Option<Response>) returns (r: Result<Action<Cmd, ()>>)
      requires offset <= |message|
      modifies this
      ensures offset <= |message|
      ensures (Current(), r) == WriteNext(old(Current()), response)
    {
      if response.Some? {
        var answer := response.value;
        if answer.sw != SUCCESS {
          return Err(StatusError(answer.sw, if step == WSelectApplet then Base.Select else Base.Command, false));
        }
        match step {
          case WSelectApplet => step := WSelectCc;
          case WSelectCc => step := WReadCc;
          case WReadCc =>
            var cc := ParseCc(answer.data);
            if cc.Err? {
              return Err(cc.error);
            }
            if cc.value.readOnly {
              return Err(FailAt(SecurityStatusNotSatisfied, Base.Command));
            }
            if |message| > cc.value.maxMessageLength {
              return Err(FailAt(LimitExceeded, Base.Command));
            }
            fileId := cc.value.fileId;
            step := WSelectNdef;
          case WSelectNdef => step := WZeroLength;
          case WZeroLength => step := if message == [] then WFinalLength else WMessage;
          case WMessage =>
            offset := offset + Min(|message| - offset, chunk);
            if offset == |message| {
              step := WFinalLength;
            }
          case WFinalLength => return Ok(Done(()));
        }
      }
      return Ok(Send(WriteCommand(Current())));
    }
  }
}
