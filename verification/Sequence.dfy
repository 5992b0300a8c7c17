/**
 Protocol machines as values, the run of one machine over a list of card answers, and the plain
 meaning of running several machines one after the other under a byte limit on their results.
 */
module Sequence {
  import opened Base

  /** A machine's `next`: state and optional answer to new state and action. */
  type Next<!S, !C, !T> = (S, Option<Response>) -> (S, Result<Action<C, T>>)

  /** Where a run of one machine stands after all answers have been offered to it. */
  datatype Progress<S, C, T> =
    | Pending(state: S, command: C)
    | Finished(state: S, output: T, rest: seq<Response>)
    | Failed(state: S, error: Error)

  /** Offer `input`, then the answers one by one, until the machine stops or they run out. */
  function Solo<S, C, T>(next: Next<S, C, T>, s: S, input: Option<Response>, answers: seq<Response>)
    : Progress<S, C, T>
    decreases answers
  {
    var (s', r) := next(s, input);
    if r.Err? then Failed(s', r.error)
    else if r.value.Done? then Finished(s', r.value.output, answers)
    else if answers == [] then Pending(s', r.value.command)
    else Solo(next, s', Some(answers[0]), answers[1..])
  }

  /** One call unfolded. */
  lemma SoloUnfold<S(!new), C(!new), T(!new)>(
    next: Next<S, C, T>, s: S, input: Option<Response>, answers: seq<Response>)
    ensures var (s', r) := next(s, input);
            Solo(next, s, input, answers)
            == if r.Err? then Failed(s', r.error)
               else if r.value.Done? then Finished(s', r.value.output, answers)
               else if answers == [] then Pending(s', r.value.command)
               else Solo(next, s', Some(answers[0]), answers[1..])
  {
  }

  const USIZE_MAX: nat := 0xffff_ffff_ffff_ffff

  /** Where a run of several machines stands. `left` are the machines not yet started. */
  datatype Overall<S, C, T> =
    | AllDone(items: seq<T>, rest: seq<Response>, used: nat)
    | Waiting(items: seq<T>, state: S, command: C, left: seq<S>, used: nat)
    | Stopped(items: seq<T>, state: S, error: Error, left: seq<S>, used: nat)

  /** Machine `s` is at work; `left` follow; `items` of total size `used` are complete. */
  function From<S, C, T>(
    next: Next<S, C, T>, size: T -> nat, limit: nat,
    s: S, input: Option<Response>, left: seq<S>, items: seq<T>, used: nat, answers: seq<Response>)
    : Overall<S, C, T>
    decreases left
  {
    match Solo(next, s, input, answers)
    case Pending(s', c) => Waiting(items, s', c, left, used)
    case Failed(s', e) => Stopped(items, s', e, left, used)
    case Finished(s', t, rest) =>
      if used + size(t) > USIZE_MAX then Stopped(items, s', Fail(LimitExceeded), left, used)
      else if used + size(t) > limit then Stopped(items, s', FailAt(LimitExceeded, Parsing), left, used + size(t))
      else if left == [] then AllDone(items + [t], rest, used + size(t))
      else From(next, size, limit, left[0], None, left[1..], items + [t], used + size(t), rest)
  }

  /** Run the machines one after the other, each from a fresh start on the answers left over. */
  function Sequential<S, C, T>(
    next: Next<S, C, T>, size: T -> nat, limit: nat, machines: seq<S>, answers: seq<Response>)
    : Overall<S, C, T>
  {
    if machines == [] then AllDone([], answers, 0)
    else From(next, size, limit, machines[0], None, machines[1..], [], 0, answers)
  }

  function TotalSize<T>(size: T -> nat, items: seq<T>): nat {
    if items == [] then 0 else TotalSize(size, items[..|items| - 1]) + size(items[|items| - 1])
  }

  /**
   The items are the outputs of the machines in order: machine 0 ran to completion on the first
   answers, machine 1 from a fresh start on the next ones, and so on up to `rest`.
   */
  ghost predicate Produced<S(!new), C(!new), T(!new)>(
    next: Next<S, C, T>, machines: seq<S>, items: seq<T>, answers: seq<Response>, rest: seq<Response>)
    decreases items
  {
    if items == [] then rest == answers
    else
      && machines != []
      && var first := Solo(next, machines[0], None, answers);
         && first.Finished? && first.output == items[0]
         && Produced(next, machines[1..], items[1..], first.rest, rest)
  }

  lemma {:induction false} ProducedOneMore<S(!new), C(!new), T(!new)>(
    next: Next<S, C, T>, machines: seq<S>, items: seq<T>, answers: seq<Response>, mid: seq<Response>)
    requires |items| < |machines| && Produced(next, machines, items, answers, mid)
    requires Solo(next, machines[|items|], None, mid).Finished?
    ensures var last := Solo(next, machines[|items|], None, mid);
            Produced(next, machines, items + [last.output], answers, last.rest)
    decreases items
  {
    var last := Solo(next, machines[|items|], None, mid);
    if items == [] {
      assert items + [last.output] == [last.output];
      assert [last.output][1..] == [];
    } else {
      var first := Solo(next, machines[0], None, answers);
      assert machines[1..][|items[1..]|] == machines[|items|];
      ProducedOneMore(next, machines[1..], items[1..], first.rest, mid);
      assert (items + [last.output])[1..] == items[1..] + [last.output];
    }
  }

  /** The machine failed by itself, or finished with a result that no longer fits. */
  ghost predicate StoppedHere<S(!new), C(!new), T(!new)>(
    size: T -> nat, limit: nat, items: seq<T>, here: Progress<S, C, T>, s: S, e: Error)
  {
    || here == Failed(s, e)
    || (&& here.Finished? && here.state == s && e.kind == LimitExceeded
        && TotalSize(size, items) + size(here.output) > Min(limit, USIZE_MAX))
  }

  /** What every stage of a sequential run accounts for. */
  ghost predicate Accounted<S(!new), C(!new), T(!new)>(
    next: Next<S, C, T>, size: T -> nat, limit: nat, machines: seq<S>, answers: seq<Response>, o: Overall<S, C, T>)
  {
    && |o.items| <= |machines|
    && TotalSize(size, o.items) <= limit
    && match o
       case AllDone(items, rest, used) => |items| == |machines| && Produced(next, machines, items, answers, rest)
       case Waiting(items, s, c, left, used) =>
         && |items| < |machines| && left == machines[|items| + 1..] && used == TotalSize(size, items)
         && exists rest ::
              && Produced(next, machines, items, answers, rest)
              && Solo(next, machines[|items|], None, rest) == Pending(s, c)
       case Stopped(items, s, e, left, used) =>
         && |items| < |machines| && left == machines[|items| + 1..]
         && exists rest ::
              && Produced(next, machines, items, answers, rest)
              && StoppedHere(size, limit, items, Solo(next, machines[|items|], None, rest), s, e)
  }

  lemma {:induction false} FromAccounted<S(!new), C(!new), T(!new)>(
    next: Next<S, C, T>, size: T -> nat, limit: nat, machines: seq<S>,
    items: seq<T>, used: nat, answers: seq<Response>, rest: seq<Response>)
    requires |items| < |machines| && Produced(next, machines, items, answers, rest)
    requires used == TotalSize(size, items) <= limit
    ensures Accounted(next, size, limit, machines, answers,
                      From(next, size, limit, machines[|items|], None, machines[|items| + 1..], items, used, rest))
    decreases |machines| - |items|
  {
    hide Solo, Produced;
    var left := machines[|items| + 1..];
    var here := Solo(next, machines[|items|], None, rest);
    if here.Finished? {
      var more := items + [here.output];
      ProducedOneMore(next, machines, items, answers, rest);
      assert more[..|more| - 1] == items;
      if used + size(here.output) <= USIZE_MAX && used + size(here.output) <= limit && left != [] {
        assert left[0] == machines[|more|] && left[1..] == machines[|more| + 1..];
        FromAccounted(next, size, limit, machines, more, used + size(here.output), answers, here.rest);
      }
    }
  }

  /** Completed, current and not yet started machines add up, in order and within the limit. */
  lemma SequentialAccounted<S(!new), C(!new), T(!new)>(
    next: Next<S, C, T>, size: T -> nat, limit: nat, machines: seq<S>, answers: seq<Response>)
    ensures Accounted(next, size, limit, machines, answers, Sequential(next, size, limit, machines, answers))
  {
    if machines != [] {
      hide Solo, From;
      FromAccounted(next, size, limit, machines, [], 0, answers, answers);
    }
  }
}
