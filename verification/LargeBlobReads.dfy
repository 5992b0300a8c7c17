/** Large-blob reads: bounds against any card, and exact behaviour against a truthful one. */
module LargeBlobReads {
  import opened Base
  import opened Cbor
  import opened CborParsing
  import opened CborCanonical
  import opened LargeBlob

  datatype System = System(machine: ReadState, action: Result<Action<Cmd, Bytes>>)

  /** The sizes a machine keeps, whatever it is told. */
  predicate Bounded(s: ReadState) { 0 < s.chunk <= MAX_FRAGMENT && s.offset <= MAX_ARRAY && |s.buffer| <= MAX_ARRAY }

  predicate Waiting(sys: System) { sys.action.Ok? && sys.action.value.Send? && Bounded(sys.machine) }

  function Exchange(sys: System, r: Response): System
    requires Waiting(sys)
  {
    var (machine, action) := ReadNext(sys.machine, Some(r));
    System(machine, action)
  }

  function Start(chunk: U64, budget: nat): System {
    System(ReadState(SelectStage, chunk, 0, budget, []), Ok(Send(SelectFido)))
  }

  /** The system after any answers at all. */
  function Run(chunk: U64, budget: nat, answers: seq<Response>): System {
    if answers == [] then Start(chunk, budget)
    else
      var before := Run(chunk, budget, answers[..|answers| - 1]);
      if Waiting(before) then Exchange(before, answers[|answers| - 1]) else before
  }

  predicate Legal(chunk: U64, budget: nat, answers: seq<Response>) {
    answers == []
    || (Legal(chunk, budget, answers[..|answers| - 1]) && Waiting(Run(chunk, budget, answers[..|answers| - 1])))
  }

  /** Waiting for the answer to SELECT (`n == 0`), or to the `n`-th `get`. */
  ghost predicate ReadInvariant(chunk: U64, budget: nat, sys: System, n: nat) {
    var m := sys.machine;
    && m.chunk == chunk && 0 < chunk <= MAX_FRAGMENT
    && if n == 0 then sys == Start(chunk, budget)
       else
         && m.stage == ExchangeStage && m.offset == |m.buffer| == (n - 1) * chunk <= MAX_ARRAY
         && m.remainingReads == budget - (n - 1)
         && sys.action == Ok(Send(Message(GetMessage(m.offset, chunk))))
  }

  lemma ReadStep(chunk: U64, budget: nat, sys: System, n: nat, r: Response)
    requires ReadInvariant(chunk, budget, sys, n)
    ensures Waiting(sys)
    ensures var next := Exchange(sys, r);
            && Bounded(next.machine)
            && (Waiting(next) ==> ReadInvariant(chunk, budget, next, n + 1))
            && (next.action.Ok? && next.action.value.Send? ==> Waiting(next))
            && (next.action.Ok? && next.action.value.Done? ==> |next.action.value.output| <= MAX_ARRAY)
  {
    hide GetMessage, ParseConfig, SplitStatus, StatusError;
    if n > 0 {
      assert n * chunk == (n - 1) * chunk + chunk;
    }
  }

  lemma {:induction false} ReadRuns(chunk: U64, budget: nat, answers: seq<Response>)
    requires 0 < chunk <= MAX_FRAGMENT && Legal(chunk, budget, answers)
    ensures var sys := Run(chunk, budget, answers);
            && Bounded(sys.machine)
            && (sys.action.Ok? && sys.action.value.Send? ==> Waiting(sys))
            && (Waiting(sys) ==> ReadInvariant(chunk, budget, sys, |answers|))
            && (sys.action.Ok? && sys.action.value.Done? ==> |sys.action.value.output| <= MAX_ARRAY)
  {
    hide Exchange, ReadInvariant;
    if answers == [] {
      StartHolds(chunk, budget);
    } else {
      var init := answers[..|answers| - 1];
      ReadRuns(chunk, budget, init);
      ReadStep(chunk, budget, Run(chunk, budget, init), |init|, answers[|answers| - 1]);
    }
  }

  lemma StartHolds(chunk: U64, budget: nat)
    requires 0 < chunk <= MAX_FRAGMENT
    ensures ReadInvariant(chunk, budget, Start(chunk, budget), 0)
  {
  }

  lemma MulDiv(k: nat, c: nat, n: nat)
    requires c > 0
    ensures k * c <= n <==> k <= n / c
  {
    var q, r := n / c, n % c;
    assert n == c * q + r;
    MulDistrib(c, k, q);
    MulDistrib(c, q, k);
    if k > q {
      MulAtLeast(c, k - q);
    } else if k < q {
      MulAtLeast(c, q - k);
    }
  }

  /**
   Against any card at all: at most 4096 / chunk + 1 `get` commands are sent, never more than
   4096 bytes are held or returned, and every `get` fits the two messages checked in advance.
   */
  lemma ReadIsBounded(chunk: U64, budget: nat, answers: seq<Response>)
    requires 0 < chunk <= MAX_FRAGMENT && Legal(chunk, budget, answers)
    ensures var sys := Run(chunk, budget, answers);
            && |sys.machine.buffer| <= MAX_ARRAY
            && (sys.action.Ok? && sys.action.value.Done? ==> |sys.action.value.output| <= MAX_ARRAY)
            && (sys.action.Ok? && sys.action.value.Send? ==> |answers| <= MAX_ARRAY / chunk + 1)
            && (sys.action.Ok? && sys.action.value.Send? && sys.action.value.command.Message? ==>
                  |sys.action.value.command.bytes| <= |GetMessage(MAX_ARRAY + chunk, chunk)|)
  {
    hide Run, Legal, GetMessage;
    ReadRuns(chunk, budget, answers);
    var sys := Run(chunk, budget, answers);
    if Waiting(sys) && |answers| > 0 {
      MulDiv(|answers| - 1, chunk, MAX_ARRAY);
      GetMessageGrows(sys.machine.offset, MAX_ARRAY + chunk, chunk);
    }
  }

  /** The status an answer fails with: the status word, or the status byte in front of the data. */
  function Refusal(r: Response): Option<nat> {
    if r.sw != 0x9000 then Some(r.sw) else if r.data != [] && r.data[0] != 0x00 then Some(r.data[0]) else None
  }

  /** Against any card, the first answer that carries a failing status ends the read with that status. */
  lemma RefusalStopsRead(chunk: U64, budget: nat, answers: seq<Response>)
    requires 0 < chunk <= MAX_FRAGMENT && Legal(chunk, budget, answers) && answers != []
    requires var last := answers[|answers| - 1];
             if |answers| == 1 then last.sw != 0x9000 else Refusal(last).Some?
    ensures var sys := Run(chunk, budget, answers);
            sys.action.Err? && sys.action.error.status == Refusal(answers[|answers| - 1])
  {
    hide GetMessage, ParseConfig;
    var init := answers[..|answers| - 1];
    ReadRuns(chunk, budget, init);
  }

  // ----- A truthful card

  /** How many full fragments `a` holds. */
  function Full(a: Bytes, chunk: U64): nat
    requires chunk > 0
  {
    |a| / chunk
  }

  /** The substring of `a` at `offset`, clamped to what there is. */
  function Substring(a: Bytes, offset: nat, length: nat): Bytes
    requires offset <= |a|
  {
    a[offset..Min(offset + length, |a|)]
  }

  function CardAnswer(a: Bytes, offset: nat, length: nat): Response {
    if offset > |a| then Response([0x02], SUCCESS)
    else Response([0x00] + ConfigPayload(Substring(a, offset, length)), SUCCESS)
  }

  /** The margin kept for the response is enough: every answer of a truthful card fits one response. */
  lemma AnswerFits(a: Bytes, offset: nat, o: Options)
    requires NewRead(o).Ok? && offset <= |a|
    ensures |CardAnswer(a, offset, NewRead(o).value.chunk).data| + 2 <= o.maxResponseBytes
  {
    hide GetMessage, Wire, WireEntry, WireEntries, Enc;
    var bytes := Substring(a, offset, NewRead(o).value.chunk);
    var e := BytesEntry(1, bytes);
    MessageSize([e]);
    OneEntry(e);
    BytesSize(1, bytes);
  }

  /** What a `get` message asks for, decoded by the card: offset and length. */
  function AskedFor(message: Bytes): Option<(U64, U64)> {
    if message == [] || message[0] != 0x0c then None
    else
      var v := Parsed(message[1..]);
      if v.Err? then None
      else
        var length, offset := GetUint(v.value, 1), GetUint(v.value, 3);
        if length.None? || offset.None? then None else Some((offset.value, length.value))
  }

  /** A card holding `a` decodes the command it was sent and answers it. */
  function Reply(a: Bytes, cmd: Cmd): Response {
    match cmd
    case SelectFido => Response([], SUCCESS)
    case Message(bytes) =>
      var asked := AskedFor(bytes);
      if asked.None? then Response([0x12], SUCCESS) else CardAnswer(a, asked.value.0, asked.value.1)
  }

  function TrueAnswer(a: Bytes, sys: System): Response
    requires Waiting(sys)
  {
    Reply(a, sys.action.value.command)
  }

  lemma GetRequestIsFlat(offset: U64, length: U64)
    ensures Flat(GetRequest(offset, length))
  {
    hide Wire;
    KeyBytes();
  }

  lemma GetRequestLookups(offset: U64, length: U64)
    ensures var v := Map(GetRequest(offset, length));
            GetUint(v, 1) == Some(length) && GetUint(v, 3) == Some(offset)
  {
    hide FirstMatch;
    MatchAt(GetRequest(offset, length), 0);
    MatchAt(GetRequest(offset, length), 1);
  }

  /** The card reads from a `get` message the offset and length it was built from. */
  lemma CardSeesGet(offset: U64, length: U64)
    ensures AskedFor(GetMessage(offset, length)) == Some((offset, length))
  {
    hide Enc, GetRequest, FirstMatch, ItemAt, Flat, GetUint;
    var es := GetRequest(offset, length);
    GetRequestIsFlat(offset, length);
    FlatMapRoundTrip(es);
    GetRequestLookups(offset, length);
    assert GetMessage(offset, length)[1..] == Enc(Map(es));
  }

  function TrueAnswers(a: Bytes, chunk: U64, budget: nat, n: nat): seq<Response> {
    if n == 0 then []
    else
      var answers := TrueAnswers(a, chunk, budget, n - 1);
      var sys := Run(chunk, budget, answers);
      if Waiting(sys) then answers + [TrueAnswer(a, sys)] else answers
  }

  lemma ConfigRoundTrip(bytes: Bytes)
    requires |bytes| < U64_END
    ensures ParseConfig(ConfigPayload(bytes)) == Ok(bytes)
  {
    hide Enc, ItemAt, Wire, Flat;
    var es := [BytesEntry(1, bytes)];
    assert Flat(es) by { OneEntryIsFlat(bytes); }
    FlatMapRoundTrip(es);
    MatchAt(es, 0);
  }

  lemma OneEntryIsFlat(bytes: Bytes)
    requires |bytes| < U64_END
    ensures Flat([BytesEntry(1, bytes)])
  {
    hide Wire;
    KeyBytes();
  }

  /** The answered substring is what the machine sees. */
  lemma AnswerIsSeen(a: Bytes, offset: nat, chunk: U64)
    requires offset <= |a| <= MAX_ARRAY
    ensures var payload := SplitStatus(CardAnswer(a, offset, chunk));
            payload.Ok? && ParseConfig(payload.value) == Ok(Substring(a, offset, chunk))
  {
    hide ParseConfig, ConfigPayload;
    var bytes := Substring(a, offset, chunk);
    ConfigRoundTrip(bytes);
    assert ([0x00] + ConfigPayload(bytes))[1..] == ConfigPayload(bytes);
  }

  ghost predicate ReadSoFar(a: Bytes, sys: System) {
    |sys.machine.buffer| <= |a| && sys.machine.buffer == a[..|sys.machine.buffer|]
  }

  /** One truthful answer: a full fragment goes on (if the budget does), a short one finishes. */
  lemma TrueStep(a: Bytes, chunk: U64, budget: nat, sys: System, n: nat)
    requires |a| <= MAX_ARRAY && ReadInvariant(chunk, budget, sys, n) && ReadSoFar(a, sys)
    ensures Waiting(sys)
    ensures var next := Exchange(sys, TrueAnswer(a, sys));
            if n == 0 || (n <= Full(a, chunk) && n - 1 < budget) then Waiting(next) && ReadSoFar(a, next)
            else if n <= Full(a, chunk) then next.action == Err(FailAt(LimitExceeded, Parsing))
            else next.action == Ok(Done(a))
  {
    hide GetMessage, ParseConfig, SplitStatus, CardAnswer, AskedFor;
    ReadStep(chunk, budget, sys, n, Response([], SUCCESS));
    ReadStep(chunk, budget, sys, n, TrueAnswer(a, sys));
    if n > 0 {
      var at := sys.machine.offset;
      CardSeesGet(at, chunk);
      AnswerIsSeen(a, at, chunk);
      MulDiv(n, chunk, |a|);
      assert n * chunk == at + chunk;
      assert a[..at] + Substring(a, at, chunk) == a[..Min(at + chunk, |a|)];
      assert a[..|a|] == a;
    }
  }

  lemma {:induction false} TrueRuns(a: Bytes, chunk: U64, budget: nat, n: nat)
    requires |a| <= MAX_ARRAY && 0 < chunk <= MAX_FRAGMENT
    requires n <= Full(a, chunk) + 1 && n <= budget + 1
    ensures var answers := TrueAnswers(a, chunk, budget, n);
            var sys := Run(chunk, budget, answers);
            && |answers| == n && Legal(chunk, budget, answers) && Waiting(sys)
            && ReadSoFar(a, sys) && ReadInvariant(chunk, budget, sys, n)
    decreases n
  {
    hide Exchange, ReadInvariant, ReadSoFar, TrueAnswer, Full, Run, Legal, TrueAnswers;
    if n == 0 {
      NoAnswersYet(a, chunk, budget);
    } else {
      TrueRuns(a, chunk, budget, n - 1);
      TrueSnoc(a, chunk, budget, n - 1);
      TrueStep(a, chunk, budget, Run(chunk, budget, TrueAnswers(a, chunk, budget, n - 1)), n - 1);
      ReadRuns(chunk, budget, TrueAnswers(a, chunk, budget, n));
    }
  }

  lemma NoAnswersYet(a: Bytes, chunk: U64, budget: nat)
    requires 0 < chunk <= MAX_FRAGMENT
    ensures TrueAnswers(a, chunk, budget, 0) == [] && Legal(chunk, budget, [])
    ensures var sys := Run(chunk, budget, []); Waiting(sys) && ReadSoFar(a, sys) && ReadInvariant(chunk, budget, sys, 0)
  {
    StartHolds(chunk, budget);
  }

  lemma TrueSnoc(a: Bytes, chunk: U64, budget: nat, n: nat)
    requires var answers := TrueAnswers(a, chunk, budget, n);
             Legal(chunk, budget, answers) && Waiting(Run(chunk, budget, answers))
    ensures var answers, more := TrueAnswers(a, chunk, budget, n), TrueAnswers(a, chunk, budget, n + 1);
            var sys := Run(chunk, budget, answers);
            && |more| == |answers| + 1 && Legal(chunk, budget, more)
            && Run(chunk, budget, more) == Exchange(sys, TrueAnswer(a, sys))
  {
    hide Exchange, TrueAnswer;
    var answers, more := TrueAnswers(a, chunk, budget, n), TrueAnswers(a, chunk, budget, n + 1);
    assert more[..|more| - 1] == answers;
  }

  /**
   On a card holding `a`, the read returns all of `a` after |a| / chunk + 2 commands when the
   initial budget of further reads covers the full fragments, and otherwise stops with the limit
   error: nothing else can happen, and no `get` asks past the end.
   */
  lemma ReadIsExact(a: Bytes, chunk: U64, budget: nat)
    requires |a| <= MAX_ARRAY && 0 < chunk <= MAX_FRAGMENT
    ensures var q := Full(a, chunk);
            if q <= budget then
              && |TrueAnswers(a, chunk, budget, q + 2)| == q + 2
              && Run(chunk, budget, TrueAnswers(a, chunk, budget, q + 2)).action == Ok(Done(a))
            else
              && |TrueAnswers(a, chunk, budget, budget + 2)| == budget + 2
              && Run(chunk, budget, TrueAnswers(a, chunk, budget, budget + 2)).action
                 == Err(FailAt(LimitExceeded, Parsing))
  {
    hide Exchange, ReadInvariant, ReadSoFar, TrueAnswer, Run, Legal, TrueAnswers, Full;
    var q := Full(a, chunk);
    var n := if q <= budget then q + 1 else budget + 1;
    TrueRuns(a, chunk, budget, n);
    TrueSnoc(a, chunk, budget, n);
    TrueStep(a, chunk, budget, Run(chunk, budget, TrueAnswers(a, chunk, budget, n)), n);
  }

  /** After any number of truthful answers, a pending `get` starts within the array as the card reads it. */
  lemma NeverPastTheEnd(a: Bytes, chunk: U64, budget: nat, n: nat)
    requires |a| <= MAX_ARRAY && 0 < chunk <= MAX_FRAGMENT
    ensures var sys := Run(chunk, budget, TrueAnswers(a, chunk, budget, n));
            sys.action.Ok? && sys.action.value.Send? && sys.action.value.command.Message? ==>
              var asked := AskedFor(sys.action.value.command.bytes);
              asked.Some? && asked.value.0 <= |a| && asked.value.1 == chunk
  {
    hide Run, TrueAnswers, Legal, GetMessage, AskedFor, ReadSoFar;
    var last := Min(Full(a, chunk), budget) + 1;
    if n <= last {
      TrueRuns(a, chunk, budget, n);
      var m := Run(chunk, budget, TrueAnswers(a, chunk, budget, n)).machine;
      if n > 0 {
        CardSeesGet(m.offset, chunk);
        MulDiv(n - 1, chunk, |a|);
      }
    } else {
      ReadIsExact(a, chunk, budget);
      StoppedForGood(a, chunk, budget, last + 1, n);
    }
  }

  lemma {:induction false} StoppedForGood(a: Bytes, chunk: U64, budget: nat, k: nat, n: nat)
    requires k <= n && !Waiting(Run(chunk, budget, TrueAnswers(a, chunk, budget, k)))
    ensures TrueAnswers(a, chunk, budget, n) == TrueAnswers(a, chunk, budget, k)
    decreases n
  {
    hide Run;
    if k < n {
      StoppedForGood(a, chunk, budget, k, n - 1);
    }
  }

  /** The commands a read of `a` sends until it stops: SELECT and the gets. */
  function CommandsSent(a: Bytes, o: Options): nat
    requires NewRead(o).Ok?
  {
    var m := NewRead(o).value;
    |TrueAnswers(a, m.chunk, m.remainingReads, Full(a, m.chunk) + 2)|
  }

  /** The budget test of `read_array` itself lets the array be read to its end. */
  predicate BudgetAdmits(a: Bytes, o: Options)
    requires NewRead(o).Ok?
  {
    |a| <= MAX_ARRAY && Full(a, NewRead(o).value.chunk) <= NewRead(o).value.remainingReads
  }

  /**
   `read_array` sets its own budget to `max_exchanges - 1` further reads, behind SELECT and a
   first `get`. So the arrays that make it overrun the exchange limit are exactly those with
   |a| / chunk >= max_exchanges - 1, whether they are then read to the end or given up, and the
   overrun is by one command.
   */
  lemma OwnBudgetAllowsOneTooMany(a: Bytes, o: Options)
    requires NewRead(o).Ok? && o.maxExchanges > 0 && |a| <= MAX_ARRAY
    ensures CommandsSent(a, o) == Min(Full(a, NewRead(o).value.chunk), o.maxExchanges - 1) + 2
    ensures CommandsSent(a, o) > o.maxExchanges <==> Full(a, NewRead(o).value.chunk) >= o.maxExchanges - 1
    ensures CommandsSent(a, o) <= o.maxExchanges + 1
  {
    hide Run, TrueAnswers, GetMessage, Full;
    var chunk, budget := NewRead(o).value.chunk, NewRead(o).value.remainingReads;
    ReadIsExact(a, chunk, budget);
    if Full(a, chunk) > budget {
      StoppedForGood(a, chunk, budget, budget + 2, Full(a, chunk) + 2);
    }
  }

  /** A failing input: one exchange, and a card that holds nothing. */
  lemma OneExchangeIsOverrun()
    ensures var o := Options(1040, 64, 1);
            NewRead(o).Ok? && BudgetAdmits([], o) && CommandsSent([], o) == 2 > o.maxExchanges
  {
    var o := Options(1040, 64, 1);
    assert |GetMessage(0, 1024)| <= 64 by { GetMessageSize(0, 1024); }
    hide GetMessage, TrueAnswers;
    OwnBudgetAllowsOneTooMany([], o);
  }

  /**
   What the caller can check before the call: no array overruns the limit if and only if the
   exchanges cover the largest one.
   */
  lemma NoOverrunIff(o: Options)
    requires NewRead(o).Ok? && o.maxExchanges > 0
    ensures (forall a :: |a| <= MAX_ARRAY ==> CommandsSent(a, o) <= o.maxExchanges)
       <==> o.maxExchanges >= MAX_ARRAY / NewRead(o).value.chunk + 2
  {
    assert NewRead(o).value.chunk > 0;
    hide TrueAnswers, GetMessage, CommandsSent, NewRead, BudgetAdmits;
    if o.maxExchanges >= MAX_ARRAY / NewRead(o).value.chunk + 2 {
      forall a | |a| <= MAX_ARRAY ensures CommandsSent(a, o) <= o.maxExchanges {
        LargestCovered(a, o);
      }
    } else {
      var a := OverrunArray(o);
      assert |a| <= MAX_ARRAY && CommandsSent(a, o) > o.maxExchanges;
    }
  }

  lemma LargestCovered(a: Bytes, o: Options)
    requires NewRead(o).Ok? && o.maxExchanges > 0 && |a| <= MAX_ARRAY
    requires o.maxExchanges >= MAX_ARRAY / NewRead(o).value.chunk + 2
    ensures CommandsSent(a, o) <= o.maxExchanges
  {
    hide TrueAnswers, GetMessage, CommandsSent;
    var chunk := NewRead(o).value.chunk;
    OwnBudgetAllowsOneTooMany(a, o);
    MulDiv(Full(a, chunk), chunk, |a|);
    MulDiv(Full(a, chunk), chunk, MAX_ARRAY);
  }

  lemma OverrunArray(o: Options) returns (a: Bytes)
    requires NewRead(o).Ok? && 0 < o.maxExchanges < MAX_ARRAY / NewRead(o).value.chunk + 2
    ensures |a| <= MAX_ARRAY && BudgetAdmits(a, o) && CommandsSent(a, o) > o.maxExchanges
  {
    hide TrueAnswers, GetMessage, CommandsSent;
    var chunk, q := NewRead(o).value.chunk, o.maxExchanges - 1;
    MulDiv(q, chunk, MAX_ARRAY);
    assert 0 <= q * chunk <= MAX_ARRAY;
    a := seq(q * chunk, _ => 0);
    assert Full(a, chunk) == q by { DivUnique(q * chunk, chunk, q, 0); }
    hide Full;
    OwnBudgetAllowsOneTooMany(a, o);
  }
}
