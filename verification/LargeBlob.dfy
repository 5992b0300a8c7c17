/** The large-blob array of CTAP 2.1 (section 6.10): messages and the two fragmenting machines. */
module LargeBlob {
  import opened Base
  import opened Cbor
  import opened CborParsing
  import opened CborCanonical

  const COMMAND: Byte := 0x0c
  const MAX_ARRAY: nat := 4096
  const MIN_ARRAY: nat := 17
  const MAX_FRAGMENT: nat := 1024
  const READ_OVERHEAD: nat := 16
  const WRITE_OVERHEAD: nat := 64

  datatype Cmd = SelectFido | Message(bytes: Bytes)

  function UintEntry(key: U64, value: U64): Entry { Entry(Unsigned(key), Unsigned(value)) }
  function BytesEntry(key: U64, value: Bytes): Entry { Entry(Unsigned(key), ByteString(value)) }

  // ----- Messages

  function GetRequest(offset: U64, length: U64): seq<Entry> { [UintEntry(1, length), UintEntry(3, offset)] }

  function GetMessage(offset: U64, length: U64): Bytes { [COMMAND] + Enc(Map(GetRequest(offset, length))) }

  /** A pinUvAuthToken: protocol number, its MAC and the hash, as functions of their inputs. */
  datatype Token = Token(protocol: U64, authenticate: Bytes -> Bytes, sha256: Bytes -> Bytes)

  ghost predicate ValidToken(t: Token) {
    && t.protocol in {1, 2}
    && (forall m :: |t.authenticate(m)| == if t.protocol == 1 then 16 else 32)
    && (forall m :: |t.sha256(m)| == 32)
  }

  function Le32(n: nat): Bytes { [n % 256, n / 256 % 256, n / 65536 % 256, n / 16777216 % 256] }

  /** The MAC input of one fragment: it binds the fragment's own offset and hash. */
  function MacInput(t: Token, fragment: Bytes, offset: nat): Bytes {
    seq(32, _ => 0xff) + [COMMAND, 0x00] + Le32(offset) + t.sha256(fragment)
  }

  /** One `set` fragment: the total length travels only with the first. */
  datatype Fragment = Fragment(offset: U64, bytes: Bytes, total: Option<U64>)

  function AuthEntries(f: Fragment, token: Option<Token>): seq<Entry> {
    match token
    case None => []
    case Some(t) => [BytesEntry(5, t.authenticate(MacInput(t, f.bytes, f.offset))), UintEntry(6, t.protocol)]
  }

  function SetRequest(f: Fragment, token: Option<Token>): seq<Entry> {
    [BytesEntry(2, f.bytes), UintEntry(3, f.offset)]
    + (if f.total.Some? then [UintEntry(4, f.total.value)] else [])
    + AuthEntries(f, token)
  }

  function SetMessage(f: Fragment, token: Option<Token>): Bytes { [COMMAND] + Enc(Map(SetRequest(f, token))) }

  function ConfigPayload(bytes: Bytes): Bytes { Enc(Map([BytesEntry(1, bytes)])) }

  function ParseConfig(payload: Bytes): Result<Bytes> {
    var v := Parsed(payload);
    if v.Err? then Err(v.error)
    else
      var config := MapGet(v.value, Unsigned(1));
      if config.Some? && config.value.ByteString? then Ok(config.value.bytes) else Err(Malformed())
  }

  /** An unsigned argument, as the card reads it. */
  function GetUint(v: Value, key: U64): Option<U64> {
    var found := MapGet(v, Unsigned(key));
    if found.Some? && found.value.Unsigned? then Some(found.value.n) else None
  }

  // ----- Message sizes

  lemma KeyBytes()
    ensures Wire(Unsigned(1)) == [1] && Wire(Unsigned(2)) == [2] && Wire(Unsigned(3)) == [3]
    ensures Wire(Unsigned(4)) == [4] && Wire(Unsigned(5)) == [5] && Wire(Unsigned(6)) == [6]
  {
  }

  lemma HeadSize(major: nat, argument: nat)
    requires major < 8
    ensures argument < 24 ==> |Head(major, argument)| == 1
    ensures argument < 256 ==> |Head(major, argument)| <= 2
    ensures argument < 0x1_0000 ==> |Head(major, argument)| <= 3
  {
  }

  lemma HeadGrows(major: nat, a: nat, b: nat)
    requires major < 8 && a <= b
    ensures |Head(major, a)| <= |Head(major, b)|
  {
  }

  lemma UintSize(key: U64, value: U64)
    requires key < 24 && value < 0x1_0000
    ensures |WireEntry(UintEntry(key, value))| <= 4
  {
    HeadSize(0, key);
    HeadSize(0, value);
  }

  lemma BytesSize(key: U64, value: Bytes)
    requires key < 24 && |value| < 0x1_0000
    ensures |WireEntry(BytesEntry(key, value))| <= 4 + |value|
  {
    HeadSize(0, key);
    HeadSize(2, |value|);
  }

  lemma {:induction false} EntriesConcat(a: seq<Entry>, b: seq<Entry>)
    ensures WireEntries(a + b) == WireEntries(a) + WireEntries(b)
  {
    hide WireEntry;
    if a == [] {
      assert a + b == b;
    } else {
      assert (a + b)[1..] == a[1..] + b;
      EntriesConcat(a[1..], b);
    }
  }

  lemma OneEntry(e: Entry)
    ensures WireEntries([e]) == WireEntry(e)
  {
    hide WireEntry;
    assert [e][1..] == [];
  }

  lemma MessageSize(entries: seq<Entry>)
    requires |entries| < 24
    ensures |[COMMAND] + Enc(Map(entries))| == 2 + |WireEntries(entries)|
  {
    NormLength(Map(entries));
    HeadSize(5, |entries|);
  }

  /** Every `set` message is at most 64 bytes longer than the fragment it carries. */
  lemma SetMessageOverhead(f: Fragment, token: Option<Token>)
    requires |f.bytes| <= MAX_FRAGMENT && f.offset <= MAX_ARRAY
    requires f.total.Some? ==> f.total.value <= MAX_ARRAY
    requires token.Some? ==> ValidToken(token.value)
    ensures |SetMessage(f, token)| <= |f.bytes| + WRITE_OVERHEAD
  {
    hide Wire, WireEntry, WireEntries, Enc, AuthEntries, UintEntry, BytesEntry;
    var first, second := BytesEntry(2, f.bytes), UintEntry(3, f.offset);
    var total := if f.total.Some? then [UintEntry(4, f.total.value)] else [];
    var auth := AuthEntries(f, token);
    BytesSize(2, f.bytes);
    UintSize(3, f.offset);
    OneEntry(first);
    OneEntry(second);
    EntriesConcat([first], [second]);
    EntriesConcat([first, second], total);
    EntriesConcat([first, second] + total, auth);
    assert [first] + [second] == [first, second];
    assert |WireEntries(total)| <= 4 by {
      NoEntries();
      if f.total.Some? {
        UintSize(4, f.total.value);
        OneEntry(UintEntry(4, f.total.value));
      }
    }
    AuthSize(f, token);
    MessageSize(SetRequest(f, token));
  }

  lemma AuthSize(f: Fragment, token: Option<Token>)
    requires token.Some? ==> ValidToken(token.value)
    ensures |AuthEntries(f, token)| <= 2 && |WireEntries(AuthEntries(f, token))| <= 40
  {
    hide Wire, WireEntry, WireEntries, MacInput, UintEntry, BytesEntry;
    NoEntries();
    if token.Some? {
      var mac := token.value.authenticate(MacInput(token.value, f.bytes, f.offset));
      var a, b := BytesEntry(5, mac), UintEntry(6, token.value.protocol);
      BytesSize(5, mac);
      UintSize(6, token.value.protocol);
      OneEntry(a);
      OneEntry(b);
      EntriesConcat([a], [b]);
      assert [a] + [b] == [a, b];
    }
  }

  /** A later read is never longer than the largest one checked in advance. */
  lemma GetMessageGrows(offset: U64, later: U64, length: U64)
    requires offset <= later
    ensures |GetMessage(offset, length)| <= |GetMessage(later, length)|
  {
    hide Wire, WireEntry, WireEntries, Enc, UintEntry;
    GetMessageSize(offset, length);
    GetMessageSize(later, length);
    HeadGrows(0, offset, later);
  }

  lemma GetMessageSize(offset: U64, length: U64)
    ensures |GetMessage(offset, length)| == 4 + |Head(0, length)| + |Head(0, offset)|
  {
    hide Wire, WireEntry, WireEntries, Enc, Head;
    var a, b := UintEntry(1, length), UintEntry(3, offset);
    MessageSize(GetRequest(offset, length));
    OneEntry(a);
    OneEntry(b);
    EntriesConcat([a], [b]);
    assert [a] + [b] == [a, b];
    UintExact(1, length);
    UintExact(3, offset);
  }

  lemma UintExact(key: U64, value: U64)
    requires key < 24
    ensures |WireEntry(UintEntry(key, value))| == 1 + |Head(0, value)|
  {
    HeadSize(0, key);
  }

  /** The MAC input is exactly the 70 bytes the firmware rebuilds. */
  lemma MacInputIs70Bytes(t: Token, fragment: Bytes, offset: nat)
    requires ValidToken(t)
    ensures |MacInput(t, fragment, offset)| == 70
  {
  }

  // ----- Machines

  datatype Options = Options(maxResponseBytes: nat, maxInputBytes: nat, maxExchanges: nat)

  function SaturatingSub(a: nat, b: nat): nat { if a < b then 0 else a - b }

  function CtapError(status: nat): Error { Error(UnexpectedStatusWord, Base.Command, Some(status)) }

  /** Status word, CTAP status byte, then the payload. */
  function SplitStatus(r: Response): Result<Bytes> {
    if r.sw != SUCCESS then Err(StatusError(r.sw, Base.Command, false))
    else if r.data == [] then Err(Malformed())
    else if r.data[0] != 0 then Err(CtapError(r.data[0]))
    else Ok(r.data[1..])
  }

  datatype Stage = SelectStage | ExchangeStage

  datatype ReadState = ReadState(stage: Stage, chunk: U64, offset: nat, remainingReads: nat, buffer: Bytes)

  function ReadSend(s: ReadState): (ReadState, Result<Action<Cmd, Bytes>>)
    requires s.offset < U64_END
  {
    (s, Ok(Send(Message(GetMessage(s.offset, s.chunk)))))
  }

  function ReadNext(s: ReadState, response: Option<Response>): (ReadState, Result<Action<Cmd, Bytes>>)
    requires s.offset + s.chunk < U64_END
  {
    if s.stage == SelectStage then
      if response.None? then (s, Ok(Send(SelectFido)))
      else if response.value.sw != SUCCESS then (s, Err(StatusError(response.value.sw, Base.Select, false)))
      else ReadSend(s.(stage := ExchangeStage))
    else if response.None? then (s, Err(Fail(ProtocolViolation)))
    else
      var payload := SplitStatus(response.value);
      if payload.Err? then (s, Err(payload.error))
      else
        var config := ParseConfig(payload.value);
        if config.Err? then (s, Err(config.error))
        else if |config.value| > s.chunk then (s, Err(Malformed()))
        else if |s.buffer| + |config.value| > MAX_ARRAY then (s, Err(FailAt(LimitExceeded, Parsing)))
        else
          var all := s.buffer + config.value;
          if |config.value| < s.chunk then (s.(buffer := []), Ok(Done(all)))
          else if s.remainingReads == 0 then (s.(buffer := all), Err(FailAt(LimitExceeded, Parsing)))
          else
            ReadSend(s.(buffer := all, remainingReads := s.remainingReads - 1, offset := s.offset + s.chunk))
  }

  /** `read_array`: the fragment size fits one response, and the budget bounds the reads. */
  function NewRead(o: Options): Result<ReadState> {
    var chunk := Min(MAX_FRAGMENT, SaturatingSub(o.maxResponseBytes, READ_OVERHEAD));
    if chunk == 0 then Err(Fail(LimitExceeded))
    else if |GetMessage(0, chunk)| > o.maxInputBytes then Err(Fail(LimitExceeded))
    else Ok(ReadState(SelectStage, chunk, 0, SaturatingSub(o.maxExchanges, 1), []))
  }

  class ReadArray {
    const chunk: U64
    var stage: Stage
    var offset: nat
    var remainingReads: nat
    var buffer: Bytes

    constructor (chunk: U64, remainingReads: nat)
      ensures Current() == ReadState(SelectStage, chunk, 0, remainingReads, [])
    {
      this.chunk, stage, offset := chunk, SelectStage, 0;
      this.remainingReads, buffer := remainingReads, [];
    }

    function Current(): ReadState
      reads this
    {
      ReadState(stage, chunk, offset, remainingReads, buffer)
    }

    method Next(response: Option<Response>) returns (r: Result<Action<Cmd, Bytes>>)
      requires offset + chunk < U64_END
      modifies this
      ensures (Current(), r) == ReadNext(old(Current()), response)
    {
      hide ParseConfig, GetMessage;
      match stage {
        case SelectStage =>
          if response.None? {
            return Ok(Send(SelectFido));
          }
          if response.value.sw != SUCCESS {
            return Err(StatusError(response.value.sw, Base.Select, false));
          }
          stage := ExchangeStage;
        case ExchangeStage =>
          if response.None? {
            return Err(Fail(ProtocolViolation));
          }
          var payload := SplitStatus(response.value);
          if payload.Err? {
            return Err(payload.error);
          }
          var config := ParseConfig(payload.value);
          if config.Err? {
            return Err(config.error);
          }
          var bytes := config.value;
          if |bytes| > chunk {
            return Err(Malformed());
          }
          if |buffer| + |bytes| > MAX_ARRAY {
            return Err(FailAt(LimitExceeded, Parsing));
          }
          buffer := buffer + bytes;
          if |bytes| < chunk {
            var all := buffer;
            buffer := [];
            return Ok(Done(all));
          }
          if remainingReads == 0 {
            return Err(FailAt(LimitExceeded, Parsing));
          }
          remainingReads := remainingReads - 1;
          offset := offset + chunk;
      }
      return Ok(Send(Message(GetMessage(offset, chunk))));
    }
  }

  datatype WriteState = WriteState(stage: Stage, messages: seq<Bytes>)

  function NextFragment(s: WriteState): (WriteState, Result<Action<Cmd, ()>>) {
    if s.messages == [] then (s, Ok(Done(())))
    else (s.(messages := s.messages[1..]), Ok(Send(Message(s.messages[0]))))
  }

  function WriteNext(s: WriteState, response: Option<Response>): (WriteState, Result<Action<Cmd, ()>>) {
    if s.stage == SelectStage then
      if response.None? then (s, Ok(Send(SelectFido)))
      else if response.value.sw != SUCCESS then (s, Err(StatusError(response.value.sw, Base.Select, false)))
      else NextFragment(s.(stage := ExchangeStage))
    else if response.None? then (s, Err(Fail(ProtocolViolation)))
    else
      var payload := SplitStatus(response.value);
      if payload.Err? then (s, Err(payload.error))
      else if payload.value != [] then (s, Err(Malformed()))
      else NextFragment(s)
  }

  class WriteArray {
    var stage: Stage
    var messages: seq<Bytes>

    constructor (messages: seq<Bytes>)
      ensures Current() == WriteState(SelectStage, messages)
    {
      stage, this.messages := SelectStage, messages;
    }

    function Current(): WriteState
      reads this
    {
      WriteState(stage, messages)
    }

    method Next(response: Option<Response>) returns (r: Result<Action<Cmd, ()>>)
      modifies this
      ensures (Current(), r) == WriteNext(old(Current()), response)
    {
      match stage {
        case SelectStage =>
          if response.None? {
            return Ok(Send(SelectFido));
          }
          if response.value.sw != SUCCESS {
            return Err(StatusError(response.value.sw, Base.Select, false));
          }
          stage := ExchangeStage;
        case ExchangeStage =>
          if response.None? {
            return Err(Fail(ProtocolViolation));
          }
          var payload := SplitStatus(response.value);
          if payload.Err? {
            return Err(payload.error);
          }
          if payload.value != [] {
            return Err(Malformed());
          }
      }
      if messages == [] {
        return Ok(Done(()));
      }
      r := Ok(Send(Message(messages[0])));
      messages := messages[1..];
    }
  }

  // ----- Fragmenting

  /** The fragments of `data` from `offset` on, each of at most `size` bytes. */
  function FragmentsFrom(data: Bytes, offset: nat, size: nat): seq<Fragment>
    requires size > 0 && |data| < U64_END
    decreases |data| - offset
  {
    if offset >= |data| then []
    else
      var take := Min(|data| - offset, size);
      [Fragment(offset, data[offset..offset + take], if offset == 0 then Some(|data|) else None)]
      + FragmentsFrom(data, offset + take, size)
  }

  function SetMessages(fragments: seq<Fragment>, token: Option<Token>): (r: seq<Bytes>)
    ensures |r| == |fragments|
    ensures forall i :: 0 <= i < |r| ==> r[i] == SetMessage(fragments[i], token)
  {
    seq(|fragments|, i requires 0 <= i < |fragments| => SetMessage(fragments[i], token))
  }

  function Joined(fragments: seq<Fragment>): Bytes {
    if fragments == [] then [] else fragments[0].bytes + Joined(fragments[1..])
  }

  /** What one fragment of the list says about its place. */
  ghost predicate Placed(data: Bytes, offset: nat, size: nat, fs: seq<Fragment>, i: nat)
    requires i < |fs|
  {
    && 0 < |fs[i].bytes| <= size
    && fs[i].offset == offset + |Joined(fs[..i])|
    && (fs[i].total == if fs[i].offset == 0 then Some(|data|) else None)
  }

  /** The fragments cover the data in order, without gaps or overlaps. */
  lemma {:induction false} FragmentsPartition(data: Bytes, offset: nat, size: nat)
    requires size > 0 && offset <= |data| < U64_END
    ensures var fs := FragmentsFrom(data, offset, size);
            && Joined(fs) == data[offset..] && |fs| == CeilDiv(|data| - offset, size)
            && forall i :: 0 <= i < |fs| ==> Placed(data, offset, size, fs, i)
    decreases |data| - offset
  {
    hide CeilDiv, Placed;
    var fs := FragmentsFrom(data, offset, size);
    if offset < |data| {
      var take := Min(|data| - offset, size);
      var rest := FragmentsFrom(data, offset + take, size);
      FragmentsPartition(data, offset + take, size);
      CeilDivStep(|data| - offset, size);
      assert fs[1..] == rest;
      assert data[offset..] == data[offset..offset + take] + data[offset + take..];
      forall i | 0 <= i < |fs| ensures Placed(data, offset, size, fs, i) {
        PlacedAfter(data, offset, size, i);
      }
    } else {
      NothingLeft(size);
      assert data[offset..] == [];
    }
  }

  lemma PlacedAfter(data: Bytes, offset: nat, size: nat, i: nat)
    requires size > 0 && offset < |data| < U64_END
    requires var take := Min(|data| - offset, size);
             var rest := FragmentsFrom(data, offset + take, size);
             i <= |rest| && (i > 0 ==> Placed(data, offset + take, size, rest, i - 1))
    ensures i < |FragmentsFrom(data, offset, size)| && Placed(data, offset, size, FragmentsFrom(data, offset, size), i)
  {
    var take := Min(|data| - offset, size);
    var fs, rest := FragmentsFrom(data, offset, size), FragmentsFrom(data, offset + take, size);
    if i > 0 {
      assert fs[i] == rest[i - 1];
      assert fs[..i][0] == fs[0] && fs[..i][1..] == rest[..i - 1];
    }
  }

  function FragmentSize(o: Options): nat { Min(MAX_FRAGMENT, SaturatingSub(o.maxInputBytes, WRITE_OVERHEAD)) }

  /** Fragments are as large as the limits allow, both ways: one byte more would not fit. */
  lemma FragmentsAreLargest(o: Options)
    ensures var size := FragmentSize(o);
            && size <= 1024 && (size > 0 ==> size + 64 <= o.maxInputBytes)
            && (size < 1024 ==> size + 1 + 64 > o.maxInputBytes)
    ensures NewRead(o).Ok? ==>
              var chunk := NewRead(o).value.chunk;
              && 0 < chunk <= 1024 && chunk + 16 <= o.maxResponseBytes
              && (chunk < 1024 ==> chunk + 1 + 16 > o.maxResponseBytes)
  {
    hide GetMessage;
  }

  /** The loop of `write_array`: one message per fragment, each tested against the input limit. */
  method BuildMessages(data: Bytes, token: Option<Token>, size: nat, maxInput: nat) returns (r: Result<seq<Bytes>>)
    requires size > 0 && |data| < U64_END
    ensures var messages := SetMessages(FragmentsFrom(data, 0, size), token);
            r == if forall i :: 0 <= i < |messages| ==> |messages[i]| <= maxInput then Ok(messages)
                 else Err(Fail(LimitExceeded))
  {
    hide SetMessage, FragmentsFrom, SetMessages;
    var messages: seq<Bytes> := [];
    var offset := 0;
    ghost var all := FragmentsFrom(data, 0, size);
    ghost var target := SetMessages(all, token);
    while offset < |data|
      invariant 0 <= offset <= |data| && |messages| <= |all|
      invariant all[|messages|..] == FragmentsFrom(data, offset, size)
      invariant messages == target[..|messages|]
      invariant forall i :: 0 <= i < |messages| ==> |messages[i]| <= maxInput
    {
      var take := Min(|data| - offset, size);
      var first := if offset == 0 then Some(|data|) else None;
      var fragment := Fragment(offset, data[offset..offset + take], first);
      var message := SetMessage(fragment, token);
      NextIs(data, offset, size, all, |messages|);
      assert target[|messages|] == message;
      if |message| > maxInput {
        return Err(Fail(LimitExceeded));
      }
      assert target[..|messages| + 1] == target[..|messages|] + [message];
      messages := messages + [message];
      offset := offset + take;
    }
    NoneLeft(data, size, all, |messages|);
    assert messages == target;
    return Ok(messages);
  }

  lemma NextIs(data: Bytes, offset: nat, size: nat, all: seq<Fragment>, k: nat)
    requires size > 0 && offset < |data| < U64_END && k <= |all|
    requires all[k..] == FragmentsFrom(data, offset, size)
    ensures var take := Min(|data| - offset, size);
            && k < |all|
            && all[k] == Fragment(offset, data[offset..offset + take], if offset == 0 then Some(|data|) else None)
            && all[k + 1..] == FragmentsFrom(data, offset + take, size)
  {
    assert all[k] == all[k..][0] && all[k + 1..] == all[k..][1..];
  }

  lemma NoneLeft(data: Bytes, size: nat, all: seq<Fragment>, k: nat)
    requires size > 0 && |data| < U64_END && k <= |all| && all[k..] == FragmentsFrom(data, |data|, size)
    ensures k == |all|
  {
    assert |all[k..]| == 0;
  }

  /**
   `write_array`: every `set` message is built before anything is sent. The size test inside the
   loop never fails: the argument, the fragment size and the exchange budget alone decide.
   */
  method NewWrite(data: Bytes, token: Option<Token>, o: Options) returns (r: Result<seq<Bytes>>)
    requires token.Some? ==> ValidToken(token.value)
    ensures var size := FragmentSize(o);
            r == if !(MIN_ARRAY <= |data| <= MAX_ARRAY) then Err(Fail(InvalidArgument))
                 else if size == 0 then Err(Fail(LimitExceeded))
                 else if CeilDiv(|data|, size) > SaturatingSub(o.maxExchanges, 1) then Err(Fail(LimitExceeded))
                 else Ok(SetMessages(FragmentsFrom(data, 0, size), token))
  {
    hide SetMessage, CeilDiv, FragmentsFrom, ValidToken;
    if !(MIN_ARRAY <= |data| <= MAX_ARRAY) {
      return Err(Fail(InvalidArgument));
    }
    var size := FragmentSize(o);
    if size == 0 {
      return Err(Fail(LimitExceeded));
    }
    MessagesFit(data, token, size);
    FragmentsPartition(data, 0, size);
    r := BuildMessages(data, token, size, o.maxInputBytes);
    if r.Ok? && |r.value| > SaturatingSub(o.maxExchanges, 1) {
      return Err(Fail(LimitExceeded));
    }
  }

  lemma MessagesFit(data: Bytes, token: Option<Token>, size: nat)
    requires 0 < size <= MAX_FRAGMENT && |data| <= MAX_ARRAY
    requires token.Some? ==> ValidToken(token.value)
    ensures var messages := SetMessages(FragmentsFrom(data, 0, size), token);
            forall i :: 0 <= i < |messages| ==> |messages[i]| <= size + WRITE_OVERHEAD
  {
    hide SetMessage, CeilDiv, FragmentsFrom, ValidToken;
    var fs := FragmentsFrom(data, 0, size);
    FragmentsPartition(data, 0, size);
    forall i | 0 <= i < |fs| ensures |SetMessage(fs[i], token)| <= size + WRITE_OVERHEAD {
      assert Placed(data, 0, size, fs, i);
      JoinedPrefix(fs, i);
      SetMessageOverhead(fs[i], token);
    }
  }

  lemma {:induction false} JoinedPrefix(fs: seq<Fragment>, i: nat)
    requires i <= |fs|
    ensures |Joined(fs[..i])| <= |Joined(fs)|
  {
    if i > 0 {
      assert fs[..i][1..] == fs[1..][..i - 1];
      JoinedPrefix(fs[1..], i - 1);
    }
  }
}
