/** PIV batches: the machine that runs accepted requests, and its accounting. */
module PivBatch {
  import opened Base
  import opened Sequence

  // ----- The machine

  datatype Results<T> = Results(items: seq<T>, failedIndex: Option<nat>)

  datatype BatchState<S, T> = BatchState(
    pending: seq<S>,
    current: Option<S>,
    items: seq<T>,
    failedIndex: Option<nat>,
    resultBytes: nat,
    maxResultBytes: nat)

  /** One call of the batch machine: it works through finished requests until one sends a command. */
  function BatchNext<S, C, T>(
    sub: Next<S, C, T>, size: T -> nat, st: BatchState<S, T>, response: Option<Response>)
    : (BatchState<S, T>, Result<Action<C, Results<T>>>)
    decreases |st.pending| + if st.current.Some? then 1 else 0
  {
    if st.current.None? && st.pending == [] then
      (st.(items := [], failedIndex := None), Ok(Done(Results(st.items, st.failedIndex))))
    else
      var (current, pending) :=
        if st.current.Some? then (st.current.value, st.pending) else (st.pending[0], st.pending[1..]);
      var (s, r) := sub(current, response);
      var held := st.(pending := pending, current := Some(s));
      if r.Err? then (held, Err(r.error))
      else if r.value.Send? then (held, Ok(Send(r.value.command)))
      else
        var t := r.value.output;
        var bytes := st.resultBytes + size(t);
        if bytes > USIZE_MAX then (held, Err(Fail(LimitExceeded)))
        else if bytes > st.maxResultBytes then
          (held.(resultBytes := bytes), Err(FailAt(LimitExceeded, Parsing)))
        else BatchNext(sub, size, held.(current := None, items := st.items + [t], resultBytes := bytes), None)
  }

  /** `take_progress`: the completed items, with the failure located if a request was at work. */
  function TakeProgress<S, T>(st: BatchState<S, T>): Results<T> {
    Results(st.items, if st.current.Some? then Some(|st.items|) else st.failedIndex)
  }

  function BatchStep<S, C, T>(sub: Next<S, C, T>, size: T -> nat): Next<BatchState<S, T>, C, Results<T>> {
    (st, response) => BatchNext(sub, size, st, response)
  }

  function BatchStart<S, T>(machines: seq<S>, limit: nat): BatchState<S, T> {
    BatchState(machines, None, [], None, 0, limit)
  }

  class BatchMachine<S, C, T> {
    const sub: Next<S, C, T>
    const size: T -> nat
    const maxResultBytes: nat
    var pending: seq<S>
    var current: Option<S>
    var items: seq<T>
    var failedIndex: Option<nat>
    var resultBytes: nat

    constructor (sub: Next<S, C, T>, size: T -> nat, machines: seq<S>, limit: nat)
      ensures this.sub == sub && this.size == size && State() == BatchStart(machines, limit)
    {
      this.sub, this.size, maxResultBytes := sub, size, limit;
      pending, current, items, failedIndex, resultBytes := machines, None, [], None, 0;
    }

    function State(): BatchState<S, T>
      reads this
    {
      BatchState(pending, current, items, failedIndex, resultBytes, maxResultBytes)
    }

    method Next(response: Option<Response>) returns (r: Result<Action<C, Results<T>>>)
      modifies this
      ensures (State(), r) == BatchNext(sub, size, old(State()), response)
    {
      var input := response;
      while true
        invariant BatchNext(sub, size, State(), input) == BatchNext(sub, size, old(State()), response)
        decreases |pending| + if current.Some? then 1 else 0
      {
        if current.None? && pending != [] {
          current, pending := Some(pending[0]), pending[1..];
        }
        if current.None? {
          var results := Results(items, failedIndex);
          items, failedIndex := [], None;
          return Ok(Done(results));
        }
        var (s, action) := sub(current.value, input);
        input := None;
        current := Some(s);
        if action.Err? {
          return Err(action.error);
        }
        if action.value.Send? {
          return Ok(Send(action.value.command));
        }
        var value := action.value.output;
        if resultBytes + size(value) > USIZE_MAX {
          return Err(Fail(LimitExceeded));
        }
        resultBytes := resultBytes + size(value);
        if resultBytes > maxResultBytes {
          return Err(FailAt(LimitExceeded, Parsing));
        }
        items := items + [value];
        current := None;
      }
    }

    method TakeProgressNow() returns (r: Results<T>)
      modifies this`items, this`failedIndex
      ensures r == TakeProgress(old(State()))
      ensures items == [] && failedIndex == None
    {
      if current.Some? {
        failedIndex := Some(|items|);
      }
      r := Results(items, failedIndex);
      items, failedIndex := [], None;
    }
  }

  // ----- The machine is the sequential run

  /** The batch machine stands exactly where the sequential run stands. */
  ghost predicate SameStanding<S(!new), C(!new), T(!new)>(
    p: Progress<BatchState<S, T>, C, Results<T>>, o: Overall<S, C, T>, limit: nat)
  {
    match o
    case AllDone(items, rest, _) => p.Finished? && p.output == Results(items, None) && p.rest == rest
    case Waiting(items, s, c, left, used) => p == Pending(BatchState(left, Some(s), items, None, used, limit), c)
    case Stopped(items, s, e, left, used) => p == Failed(BatchState(left, Some(s), items, None, used, limit), e)
  }

  /** An equal first action makes an equal run. */
  lemma SameFirstStep<S(!new), C(!new), T(!new)>(
    next: Next<S, C, T>, a: S, x: Option<Response>, b: S, y: Option<Response>, answers: seq<Response>)
    requires next(a, x) == next(b, y)
    ensures Solo(next, a, x, answers) == Solo(next, b, y, answers)
  {
  }

  /** Taking the next request off the queue is part of the same call. */
  lemma NextRequest<S(!new), C(!new), T(!new)>(sub: Next<S, C, T>, size: T -> nat, st: BatchState<S, T>)
    requires st.current.None? && st.pending != []
    ensures BatchNext(sub, size, st, None)
         == BatchNext(sub, size, st.(current := Some(st.pending[0]), pending := st.pending[1..]), None)
  {
  }

  lemma {:induction false} BatchRefines<S(!new), C(!new), T(!new)>(
    sub: Next<S, C, T>, size: T -> nat, limit: nat,
    s: S, input: Option<Response>, left: seq<S>, items: seq<T>, used: nat, answers: seq<Response>)
    ensures SameStanding(
              Solo(BatchStep(sub, size), BatchState(left, Some(s), items, None, used, limit), input, answers),
              From(sub, size, limit, s, input, left, items, used, answers), limit)
    decreases |answers|, |left|
  {
    var step := BatchStep(sub, size);
    var st := BatchState(left, Some(s), items, None, used, limit);
    var (s', r) := sub(s, input);
    if r.Ok? && r.value.Send? {
      if answers != [] {
        BatchRefines(sub, size, limit, s', Some(answers[0]), left, items, used, answers[1..]);
      }
    } else if r.Ok? {
      var t := r.value.output;
      var bytes := used + size(t);
      var between := BatchState(left, None, items + [t], None, bytes, limit);
      if bytes <= USIZE_MAX && bytes <= limit {
        assert step(st, input) == BatchNext(sub, size, st, input) == BatchNext(sub, size, between, None);
      }
      if bytes <= USIZE_MAX && bytes <= limit && left != [] {
        var st' := BatchState(left[1..], Some(left[0]), items + [t], None, bytes, limit);
        NextRequest(sub, size, between);
        SameFirstStep(step, st, input, st', None, answers);
        BatchRefines(sub, size, limit, left[0], None, left[1..], items + [t], bytes, answers);
      }
    }
  }

  /**
   Refinement: driven over any answers, the batch machine does exactly what running the requests
   one after the other does.
   */
  lemma BatchIsSequential<S(!new), C(!new), T(!new)>(
    sub: Next<S, C, T>, size: T -> nat, limit: nat, machines: seq<S>, answers: seq<Response>)
    ensures SameStanding(
              Solo(BatchStep(sub, size), BatchStart(machines, limit), None, answers),
              Sequential(sub, size, limit, machines, answers), limit)
  {
    var step := BatchStep(sub, size);
    if machines != [] {
      hide From;
      var st := BatchState(machines[1..], Some(machines[0]), [], None, 0, limit);
      NextRequest(sub, size, BatchStart(machines, limit));
      SameFirstStep(step, BatchStart(machines, limit), None, st, None, answers);
      BatchRefines(sub, size, limit, machines[0], None, machines[1..], [], 0, answers);
    }
  }

  /**
   Accounting in every reachable state: completed, current and pending requests add up; the
   completed items are the outputs of the leading requests in order; their sizes stay within the
   limit; and the progress retained after a failure, or while waiting, is exactly that completed
   prefix, with the failure located at its end.
   */
  lemma BatchAccounting<S(!new), C(!new), T(!new)>(
    sub: Next<S, C, T>, size: T -> nat, limit: nat, machines: seq<S>, answers: seq<Response>)
    ensures var p := Solo(BatchStep(sub, size), BatchStart(machines, limit), None, answers);
            && (p.Pending? || p.Failed? ==>
                  && |p.state.items| + 1 + |p.state.pending| == |machines|
                  && p.state.current.Some?
                  && TotalSize(size, p.state.items) <= limit
                  && TakeProgress(p.state) == Results(p.state.items, Some(|p.state.items|))
                  && exists rest :: Produced(sub, machines, p.state.items, answers, rest))
            && (p.Finished? ==>
                  && |p.output.items| == |machines| && p.output.failedIndex == None
                  && TotalSize(size, p.output.items) <= limit
                  && Produced(sub, machines, p.output.items, answers, p.rest))
  {
    hide Solo, Sequential, Produced, BatchStep;
    BatchIsSequential(sub, size, limit, machines, answers);
    SequentialAccounted(sub, size, limit, machines, answers);
  }
}
