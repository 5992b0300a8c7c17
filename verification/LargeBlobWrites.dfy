/** Large-blob writes against a card with a temporary file and an atomic commit. */
module LargeBlobWrites {
  import opened Base
  import opened Cbor
  import opened CborParsing
  import opened CborCanonical
  import opened LargeBlob

  // ----- Card

  /**
   The stored array, the temporary file, the announced total, the token the card checks writes
   against (if it has a PIN), and the integrity test applied before a commit.
   */
  datatype BlobCard = BlobCard(
    stored: Bytes,
    temp: Bytes,
    expected: nat,
    token: Option<Token>,
    intact: Bytes -> bool)

  /**
   What the card authenticates, byte by byte: 32 times ff, the command and subcommand bytes, the
   offset with its low byte first, and the hash of the fragment it decoded.
   */
  function CardMacInput(t: Token, fragment: Bytes, offset: nat): (r: Bytes)
    ensures |r| == 70
  {
    var hash := t.sha256(fragment);
    seq(70, i requires 0 <= i < 70 =>
      if i < 32 then 0xff
      else if i == 32 then 0x0c
      else if i == 33 then 0x00
      else if i < 38 then offset / Pow256(i - 34) % 256
      else if i - 38 < |hash| then hash[i - 38] else 0)
  }

  /** The host's MAC input is the one the card builds. */
  lemma MacInputsAgree(t: Token, fragment: Bytes, offset: nat)
    requires ValidToken(t)
    ensures MacInput(t, fragment, offset) == CardMacInput(t, fragment, offset)
  {
    var mine, card := MacInput(t, fragment, offset), CardMacInput(t, fragment, offset);
    var hash := t.sha256(fragment);
    assert |hash| == 32;
    OffsetBytes(offset);
    forall i | 0 <= i < 70 ensures mine[i] == card[i] {
      if 34 <= i < 38 {
        assert mine[i] == Le32(offset)[i - 34];
      } else if i >= 38 {
        assert mine[i] == hash[i - 38];
      }
    }
  }

  lemma OffsetBytes(offset: nat)
    ensures forall i :: 0 <= i < 4 ==> Le32(offset)[i] == offset / Pow256(i) % 256
  {
    assert Pow256(0) == 1 && Pow256(1) == 256 && Pow256(2) == 65536 && Pow256(3) == 16777216;
  }

  /** The authentication the card expects with a fragment. */
  predicate Authentic(token: Option<Token>, v: Value, bytes: Bytes, offset: nat) {
    match token
    case None => true
    case Some(t) =>
      && MapGet(v, Unsigned(5)) == Some(ByteString(t.authenticate(CardMacInput(t, bytes, offset))))
      && MapGet(v, Unsigned(6)) == Some(Unsigned(t.protocol))
  }

  /** The fragment rules: total with offset zero only, consecutive offsets, commit at the total. */
  function AcceptFragment(card: BlobCard, f: Fragment): Option<BlobCard> {
    var started := f.offset == 0;
    if started != f.total.Some? then None
    else if started && !(17 <= f.total.value <= 4096) then None
    else if !started && f.offset != |card.temp| then None
    else
      var expected := if started then f.total.value else card.expected;
      var temp := if started then f.bytes else card.temp + f.bytes;
      if |temp| > expected then None
      else if |temp| < expected then Some(card.(temp := temp, expected := expected))
      else if card.intact(temp) then Some(card.(stored := temp, temp := [], expected := 0))
      else None
  }

  /** Decode a `set` message and apply it; `None` is a refusal that changes nothing. */
  function Accept(card: BlobCard, message: Bytes): Option<BlobCard> {
    if message == [] || message[0] != 0x0c then None
    else
      var v := Parsed(message[1..]);
      if v.Err? then None
      else
        var bytes := MapGet(v.value, Unsigned(2));
        var offset := GetUint(v.value, 3);
        if bytes.None? || !bytes.value.ByteString? || offset.None? then None
        else if !Authentic(card.token, v.value, bytes.value.bytes, offset.value) then None
        else AcceptFragment(card, Fragment(offset.value, bytes.value.bytes, GetUint(v.value, 4)))
  }

  // ----- The card understands what the host sends

  lemma SetRequestIsFlat(f: Fragment, token: Option<Token>)
    requires |f.bytes| < U64_END && (token.Some? ==> ValidToken(token.value))
    ensures Flat(SetRequest(f, token))
  {
    hide Wire, MacInput;
    KeyBytes();
  }

  lemma SetRequestLookups(f: Fragment, token: Option<Token>)
    requires token.Some? ==> ValidToken(token.value)
    ensures var v := Map(SetRequest(f, token));
            && MapGet(v, Unsigned(2)) == Some(ByteString(f.bytes))
            && GetUint(v, 3) == Some(f.offset)
            && GetUint(v, 4) == f.total
            && Authentic(token, v, f.bytes, f.offset)
            && (token.None? ==> MapGet(v, Unsigned(5)) == None)
  {
    if token.Some? {
      MacInputsAgree(token.value, f.bytes, f.offset);
    }
    hide FirstMatch, MacInput, CardMacInput, ValidToken;
    var es := SetRequest(f, token);
    MatchAt(es, 0);
    MatchAt(es, 1);
    if f.total.Some? {
      MatchAt(es, 2);
    } else {
      NoMatch(es, Unsigned(4));
    }
    if token.Some? {
      MatchAt(es, |es| - 2);
      MatchAt(es, |es| - 1);
    } else {
      NoMatch(es, Unsigned(5));
    }
  }

  /**
   A card refuses a `set` message on its authentication, or sees exactly the fragment that was
   built; with the same token, or with none of its own, it sees the fragment.
   */
  lemma CardSeesFragment(card: BlobCard, f: Fragment, token: Option<Token>)
    requires |f.bytes| < U64_END && (token.Some? ==> ValidToken(token.value))
    ensures Accept(card, SetMessage(f, token)) in {None, AcceptFragment(card, f)}
    ensures card.token == token || card.token == None ==> Accept(card, SetMessage(f, token)) == AcceptFragment(card, f)
    ensures card.token.Some? && token.None? ==> Accept(card, SetMessage(f, token)) == None
  {
    hide Enc, SetRequest, FirstMatch, ItemAt, MacInput, CardMacInput, AcceptFragment, Flat, ValidToken;
    var es := SetRequest(f, token);
    SetRequestIsFlat(f, token);
    FlatMapRoundTrip(es);
    SetRequestLookups(f, token);
    assert SetMessage(f, token)[1..] == Enc(Map(es));
  }

  // ----- Runs

  datatype Event = Event(applied: bool, response: Response)

  /** How a card acknowledges: to a message, with the one status byte 00. */
  predicate Acknowledged(cmd: Cmd, e: Event) {
    e.response.sw == 0x9000 && (cmd.Message? ==> e.response.data == [0x00])
  }

  /** A fragment is acknowledged only if the card accepted it. */
  predicate Honest(card: BlobCard, cmd: Cmd, e: Event) {
    cmd.Message? ==> (e.applied ==> Accept(card, cmd.bytes).Some?) && (Acknowledged(cmd, e) ==> e.applied)
  }

  function CardAfter(card: BlobCard, cmd: Cmd, e: Event): BlobCard {
    if cmd.Message? && e.applied && Accept(card, cmd.bytes).Some? then Accept(card, cmd.bytes).value else card
  }

  datatype System = System(machine: WriteState, action: Result<Action<Cmd, ()>>, card: BlobCard)

  predicate Waiting(sys: System) { sys.action.Ok? && sys.action.value.Send? }

  function Exchange(sys: System, e: Event): System
    requires Waiting(sys)
  {
    var (machine, action) := WriteNext(sys.machine, Some(e.response));
    System(machine, action, CardAfter(sys.card, sys.action.value.command, e))
  }

  function Run(card: BlobCard, messages: seq<Bytes>, events: seq<Event>): System {
    if events == [] then System(WriteState(SelectStage, messages), Ok(Send(SelectFido)), card)
    else
      var before := Run(card, messages, events[..|events| - 1]);
      if Waiting(before) then Exchange(before, events[|events| - 1]) else before
  }

  predicate Legal(card: BlobCard, messages: seq<Bytes>, events: seq<Event>) {
    events == []
    || (var init, e := events[..|events| - 1], events[|events| - 1];
        var before := Run(card, messages, init);
        Legal(card, messages, init) && Waiting(before) && Honest(before.card, before.action.value.command, e))
  }

  /** A list of fragments as `write_array` produces it. */
  ghost predicate Fragmented(data: Bytes, fs: seq<Fragment>) {
    && MIN_ARRAY <= |data| <= MAX_ARRAY && Joined(fs) == data && |fs| > 0
    && forall i :: 0 <= i < |fs| ==> Placed(data, 0, MAX_FRAGMENT, fs, i)
  }

  lemma JoinedSnoc(fs: seq<Fragment>, w: nat)
    requires w < |fs|
    ensures Joined(fs[..w + 1]) == Joined(fs[..w]) + fs[w].bytes
  {
    if w == 0 {
      assert fs[..1] == [fs[0]] && fs[..1][1..] == [] && fs[..0] == [];
    } else {
      assert fs[..w + 1][1..] == fs[1..][..w] && fs[..w][1..] == fs[1..][..w - 1];
      JoinedSnoc(fs[1..], w - 1);
    }
  }

  lemma {:induction false} JoinedBound(fs: seq<Fragment>, data: Bytes, w: nat)
    requires Fragmented(data, fs) && w < |fs|
    ensures |Joined(fs[..w + 1])| <= |data|
    ensures |Joined(fs[..w + 1])| == |data| <==> w == |fs| - 1
    ensures w == |fs| - 1 ==> Joined(fs[..w + 1]) == data
    decreases |fs| - w
  {
    hide Joined;
    if w == |fs| - 1 {
      assert fs[..w + 1] == fs;
    } else {
      JoinedBound(fs, data, w + 1);
      JoinedSnoc(fs, w + 1);
      assert Placed(data, 0, MAX_FRAGMENT, fs, w + 1);
      assert |Joined(fs[..w + 1])| < |Joined(fs[..w + 2])| <= |data|;
    }
  }

  /** The card between two fragments: old array in place, the sent bytes in the temporary file. */
  ghost predicate Collecting(before: BlobCard, card: BlobCard, data: Bytes, fs: seq<Fragment>, w: nat)
    requires w <= |fs|
  {
    && card.stored == before.stored && card.token == before.token && card.intact == before.intact
    && (w > 0 ==> card.temp == Joined(fs[..w]) && card.expected == |data|)
  }

  /** Fragment `w` moves the card one place on, and the last one commits. */
  lemma AcceptInOrder(before: BlobCard, card: BlobCard, data: Bytes, fs: seq<Fragment>, w: nat)
    requires Fragmented(data, fs) && w < |fs| && Collecting(before, card, data, fs, w)
    ensures var next := AcceptFragment(card, fs[w]);
            if w < |fs| - 1 then next.Some? && Collecting(before, next.value, data, fs, w + 1)
            else && (next.Some? <==> before.intact(data))
                 && (next.Some? ==> next.value.stored == data)
  {
    hide Joined;
    assert Placed(data, 0, MAX_FRAGMENT, fs, w);
    JoinedSnoc(fs, w);
    JoinedBound(fs, data, w);
    if w == 0 {
      assert fs[..0] == [];
      JoinedNone();
      assert Joined(fs[..0]) + fs[0].bytes == fs[0].bytes;
    } else {
      FirstFragment(data, fs, w);
    }
  }

  lemma JoinedNone()
    ensures Joined([]) == []
  {
  }

  lemma FirstFragment(data: Bytes, fs: seq<Fragment>, w: nat)
    requires Fragmented(data, fs) && 0 < w < |fs|
    ensures |Joined(fs[..w])| > 0
  {
    hide Joined;
    assert Placed(data, 0, MAX_FRAGMENT, fs, w - 1);
    JoinedSnoc(fs, w - 1);
  }

  /** Waiting for the answer to SELECT, or to fragment `|events| - 1`. */
  ghost predicate WriteInvariant(before: BlobCard, data: Bytes, fs: seq<Fragment>, messages: seq<Bytes>,
                                 sys: System, n: nat)
    requires |messages| == |fs|
  {
    if n == 0 then
      && sys.machine == WriteState(SelectStage, messages) && sys.action == Ok(Send(SelectFido))
      && Collecting(before, sys.card, data, fs, 0)
    else
      && n <= |fs| && sys.machine == WriteState(ExchangeStage, messages[n..])
      && sys.action == Ok(Send(Message(messages[n - 1])))
      && Collecting(before, sys.card, data, fs, n - 1)
  }

  /** Where a stopped run can have left the card. */
  ghost predicate Stopped(before: BlobCard, data: Bytes, fs: seq<Fragment>, sys: System, n: nat) {
    && !Waiting(sys)
    && (sys.card.stored == before.stored || (sys.card.stored == data && n == |fs| + 1))
    && (sys.action.Ok? ==> sys.card.stored == data && n == |fs| + 1)
  }

  lemma StepKeeps(before: BlobCard, data: Bytes, fs: seq<Fragment>, messages: seq<Bytes>, token: Option<Token>,
                  sys: System, n: nat, e: Event)
    requires Fragmented(data, fs) && messages == SetMessages(fs, token)
    requires token.Some? ==> ValidToken(token.value)
    requires WriteInvariant(before, data, fs, messages, sys, n) && Honest(sys.card, sys.action.value.command, e)
    ensures var next := Exchange(sys, e);
            if Waiting(next) then WriteInvariant(before, data, fs, messages, next, n + 1)
            else Stopped(before, data, fs, next, n + 1)
  {
    hide Joined, SetMessage, Accept, AcceptFragment, ValidToken, Fragmented;
    if n > 0 {
      var w := n - 1;
      FragmentSize1(data, fs, w);
      CardSeesFragment(sys.card, fs[w], token);
      AcceptInOrder(before, sys.card, data, fs, w);
    }
    FragmentCount(data, fs);
    if n <= |fs| {
      assert n < |fs| ==> messages[n..][0] == messages[n] && messages[n..][1..] == messages[n + 1..];
    }
    assert messages[0..] == messages;
  }

  lemma FragmentCount(data: Bytes, fs: seq<Fragment>)
    requires Fragmented(data, fs)
    ensures |fs| > 0
  {
  }

  lemma FragmentSize1(data: Bytes, fs: seq<Fragment>, w: nat)
    requires Fragmented(data, fs) && w < |fs|
    ensures |fs[w].bytes| < U64_END
  {
    assert Placed(data, 0, MAX_FRAGMENT, fs, w);
  }

  lemma {:induction false} WriteRuns(
    card: BlobCard, data: Bytes, fs: seq<Fragment>, messages: seq<Bytes>, token: Option<Token>, events: seq<Event>)
    requires Fragmented(data, fs) && messages == SetMessages(fs, token)
    requires token.Some? ==> ValidToken(token.value)
    requires Legal(card, messages, events)
    ensures var sys := Run(card, messages, events);
            if Waiting(sys) then WriteInvariant(card, data, fs, messages, sys, |events|)
            else Stopped(card, data, fs, sys, |events|)
  {
    hide Exchange, Honest, Fragmented, SetMessages, ValidToken, Stopped;
    if events != [] {
      var init := events[..|events| - 1];
      WriteRuns(card, data, fs, messages, token, init);
      StepKeeps(card, data, fs, messages, token, Run(card, messages, init), |init|, events[|events| - 1]);
    }
  }

  lemma WriteArrayFragments(data: Bytes, size: nat)
    requires MIN_ARRAY <= |data| <= MAX_ARRAY && 0 < size <= MAX_FRAGMENT
    ensures Fragmented(data, FragmentsFrom(data, 0, size))
  {
    hide FragmentsFrom, Joined;
    var fs := FragmentsFrom(data, 0, size);
    FragmentsPartition(data, 0, size);
    assert data[0..] == data;
    JoinedNone();
    forall i | 0 <= i < |fs| ensures Placed(data, 0, MAX_FRAGMENT, fs, i) {
      assert Placed(data, 0, size, fs, i);
    }
  }

  /**
   The write is atomic: at every point of every run the stored array is the old one or exactly
   `data`; it is the old one while any fragment is unanswered and not yet the last, and `data`
   whenever the machine reports success.
   */
  lemma WriteIsAtomic(card: BlobCard, data: Bytes, size: nat, token: Option<Token>, events: seq<Event>)
    requires MIN_ARRAY <= |data| <= MAX_ARRAY && 0 < size <= MAX_FRAGMENT
    requires token.Some? ==> ValidToken(token.value)
    requires Legal(card, SetMessages(FragmentsFrom(data, 0, size), token), events)
    ensures var n := |FragmentsFrom(data, 0, size)|;
            var sys := Run(card, SetMessages(FragmentsFrom(data, 0, size), token), events);
            && (Waiting(sys) || |events| <= n ==> sys.card.stored == card.stored)
            && (sys.card.stored == card.stored || sys.card.stored == data)
            && (sys.action == Ok(Done(())) ==> sys.card.stored == data && |events| == n + 1)
  {
    hide FragmentsFrom, SetMessages, Run, Legal, ValidToken, Joined;
    var fs := FragmentsFrom(data, 0, size);
    WriteArrayFragments(data, size);
    WriteRuns(card, data, fs, SetMessages(fs, token), token, events);
  }

  /** On a card that checks a token, a host that sends none stores nothing and never succeeds. */
  lemma {:induction false} WriteNeedsToken(card: BlobCard, data: Bytes, size: nat, events: seq<Event>)
    requires MIN_ARRAY <= |data| <= MAX_ARRAY && 0 < size <= MAX_FRAGMENT && card.token.Some?
    requires Legal(card, SetMessages(FragmentsFrom(data, 0, size), None), events)
    ensures var sys := Run(card, SetMessages(FragmentsFrom(data, 0, size), None), events);
            sys.card == card && sys.action != Ok(Done(()))
    decreases events
  {
    hide FragmentsFrom, SetMessages, Accept, Joined, Collecting, Stopped;
    if events != [] {
      var init := events[..|events| - 1];
      var fs := FragmentsFrom(data, 0, size);
      WriteArrayFragments(data, size);
      WriteNeedsToken(card, data, size, init);
      WriteRuns(card, data, fs, SetMessages(fs, None), None, init);
      if |init| > 0 {
        FragmentSize1(data, fs, |init| - 1);
        CardSeesFragment(card, fs[|init| - 1], None);
      }
    }
  }

  // ----- Completion

  function IdealEvent(card: BlobCard, cmd: Cmd): Event {
    match cmd
    case SelectFido => Event(true, Response([], SUCCESS))
    case Message(m) =>
      if Accept(card, m).Some? then Event(true, Response([0x00], SUCCESS))
      else Event(false, Response([0x3d], SUCCESS))
  }

  function IdealEvents(card: BlobCard, messages: seq<Bytes>, n: nat): seq<Event> {
    if n == 0 then []
    else
      var events := IdealEvents(card, messages, n - 1);
      var sys := Run(card, messages, events);
      if Waiting(sys) then events + [IdealEvent(sys.card, sys.action.value.command)] else events
  }

  lemma IdealIsHonest(card: BlobCard, cmd: Cmd)
    ensures Honest(card, cmd, IdealEvent(card, cmd))
  {
    hide Accept;
  }

  lemma {:induction false} IdealRuns(
    card: BlobCard, data: Bytes, fs: seq<Fragment>, messages: seq<Bytes>, token: Option<Token>, n: nat)
    requires Fragmented(data, fs) && messages == SetMessages(fs, token) && n <= |fs|
    requires token.Some? ==> ValidToken(token.value)
    requires card.token == token || card.token == None
    ensures var events := IdealEvents(card, messages, n);
            && |events| == n && Legal(card, messages, events) && Waiting(Run(card, messages, events))
    decreases n
  {
    hide Exchange, Honest, Fragmented, SetMessages, ValidToken, Stopped, IdealEvent, WriteInvariant;
    if n > 0 {
      IdealRuns(card, data, fs, messages, token, n - 1);
      var init := IdealEvents(card, messages, n - 1);
      var sys := Run(card, messages, init);
      IdealSnoc(card, messages, n - 1);
      WriteRuns(card, data, fs, messages, token, init);
      IdealStep(card, data, fs, messages, token, sys, n - 1);
    }
  }

  lemma IdealStep(before: BlobCard, data: Bytes, fs: seq<Fragment>, messages: seq<Bytes>, token: Option<Token>,
                  sys: System, n: nat)
    requires Fragmented(data, fs) && messages == SetMessages(fs, token)
    requires token.Some? ==> ValidToken(token.value)
    requires before.token == token || before.token == None
    requires WriteInvariant(before, data, fs, messages, sys, n) && n <= |fs|
    ensures var next := Exchange(sys, IdealEvent(sys.card, sys.action.value.command));
            if n < |fs| then Waiting(next) else next.action.Ok? <==> before.intact(data)
  {
    hide Joined, SetMessage, Accept, AcceptFragment, ValidToken, Fragmented;
    FragmentCount(data, fs);
    if n > 0 {
      FragmentSize1(data, fs, n - 1);
      CardSeesFragment(sys.card, fs[n - 1], token);
      AcceptInOrder(before, sys.card, data, fs, n - 1);
    }
    assert [0x00][1..] == [];
  }

  /** An undisturbed write succeeds exactly when the array carries a valid integrity trailer. */
  lemma WriteCompletesIff(card: BlobCard, data: Bytes, size: nat, token: Option<Token>)
    requires MIN_ARRAY <= |data| <= MAX_ARRAY && 0 < size <= MAX_FRAGMENT
    requires token.Some? ==> ValidToken(token.value)
    requires card.token == token || card.token == None
    ensures var fs := FragmentsFrom(data, 0, size);
            var messages := SetMessages(fs, token);
            var events := IdealEvents(card, messages, |fs| + 1);
            var sys := Run(card, messages, events);
            && |events| == 1 + CeilDiv(|data|, size)
            && (sys.action == Ok(Done(())) <==> card.intact(data))
            && sys.card.stored == if card.intact(data) then data else card.stored
  {
    hide FragmentsFrom, SetMessages, ValidToken, Joined, CeilDiv, Exchange, Fragmented, Stopped, Honest,
      WriteInvariant, IdealEvent, Run, Legal, IdealEvents;
    var fs := FragmentsFrom(data, 0, size);
    var messages := SetMessages(fs, token);
    FragmentsPartition(data, 0, size);
    WriteArrayFragments(data, size);
    IdealRuns(card, data, fs, messages, token, |fs|);
    var sys := Run(card, messages, IdealEvents(card, messages, |fs|));
    IdealSnoc(card, messages, |fs|);
    WriteRuns(card, data, fs, messages, token, IdealEvents(card, messages, |fs|));
    IdealStep(card, data, fs, messages, token, sys, |fs|);
    LastAnswer(card, data, fs, messages, token, sys);
    WriteIsAtomic(card, data, size, token, IdealEvents(card, messages, |fs| + 1));
  }

  lemma IdealSnoc(card: BlobCard, messages: seq<Bytes>, n: nat)
    requires var events := IdealEvents(card, messages, n);
             Legal(card, messages, events) && Waiting(Run(card, messages, events))
    ensures var events := IdealEvents(card, messages, n);
            var next := IdealEvents(card, messages, n + 1);
            var sys := Run(card, messages, events);
            && |next| == |events| + 1 && Legal(card, messages, next)
            && Run(card, messages, next) == Exchange(sys, IdealEvent(sys.card, sys.action.value.command))
  {
    hide Exchange, Honest, IdealEvent;
    var init := IdealEvents(card, messages, n);
    var sys := Run(card, messages, init);
    var events := IdealEvents(card, messages, n + 1);
    assert events[..|events| - 1] == init;
    IdealIsHonest(sys.card, sys.action.value.command);
  }

  /** After the last fragment nothing is left to send, and a refusal leaves the old array. */
  lemma LastAnswer(before: BlobCard, data: Bytes, fs: seq<Fragment>, messages: seq<Bytes>, token: Option<Token>,
                   sys: System)
    requires Fragmented(data, fs) && messages == SetMessages(fs, token)
    requires token.Some? ==> ValidToken(token.value)
    requires before.token == token || before.token == None
    requires WriteInvariant(before, data, fs, messages, sys, |fs|)
    ensures var next := Exchange(sys, IdealEvent(sys.card, sys.action.value.command));
            && !Waiting(next) && (next.action.Ok? ==> next.action == Ok(Done(())))
            && (!before.intact(data) ==> next.card.stored == before.stored)
  {
    hide Joined, SetMessage, Accept, AcceptFragment, ValidToken, Fragmented;
    FragmentCount(data, fs);
    FragmentSize1(data, fs, |fs| - 1);
    CardSeesFragment(sys.card, fs[|fs| - 1], token);
    AcceptInOrder(before, sys.card, data, fs, |fs| - 1);
  }
}
