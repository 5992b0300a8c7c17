/** The acceptance scan of a PIV batch: exactly which request lists it lets through. */
module PivScan {
  import opened Base
  import opened Sequence

  const MAX_BATCH_REQUESTS: nat := 128

  datatype Kind =
    | AgreeSm2 | ReadMetadataDirectory | ReadContainerName | SetContainerName | MoveKey | DeleteKey
    | ResetPinPukRetries | SetAlgorithmConfig | Attest | VerifyPin | AuthenticateManagement | Logout
    | ReadObject | ReadCertificate | WriteObject | WriteCertificate | DeleteCertificate
    | SetManagementKey | GetMetadata | ReadAlgorithmConfig | GenerateKey | ImportKey | Sign
    | SignStreaming | Decrypt | Derive | Decapsulate

  predicate Mutation(k: Kind) {
    k in {SetContainerName, MoveKey, DeleteKey, ResetPinPukRetries, SetAlgorithmConfig, WriteObject,
          WriteCertificate, DeleteCertificate, SetManagementKey, GenerateKey, ImportKey}
  }

  /** A request: its kind, the size of its inputs, and the machine its own checks prepare. */
  datatype Request<S> = Request(kind: Kind, inputLength: nat, prepared: Result<S>)

  function TotalInput<S>(requests: seq<Request<S>>): nat {
    if requests == [] then 0
    else TotalInput(requests[..|requests| - 1]) + requests[|requests| - 1].inputLength
  }

  /** The flag the scan keeps, in front of request `k`. */
  function FlagAfter<S>(requests: seq<Request<S>>, k: nat): bool
    requires k <= |requests|
  {
    if k == 0 then false
    else if requests[k - 1].kind == AuthenticateManagement then true
    else if requests[k - 1].kind == ResetPinPukRetries then false
    else FlagAfter(requests, k - 1)
  }

  /** An authentication lies before request `k` with no retry reset in between. */
  ghost predicate ManagementHeld<S>(requests: seq<Request<S>>, k: nat)
    requires k <= |requests|
  {
    exists j :: 0 <= j < k && requests[j].kind == AuthenticateManagement
                && forall m :: j < m < k ==> requests[m].kind != ResetPinPukRetries
  }

  lemma {:induction false} FlagMeansHeld<S>(requests: seq<Request<S>>, k: nat)
    requires k <= |requests|
    ensures FlagAfter(requests, k) <==> ManagementHeld(requests, k)
  {
    if k > 0 {
      FlagMeansHeld(requests, k - 1);
      if requests[k - 1].kind == AuthenticateManagement {
        assert ManagementHeld(requests, k);
      } else if FlagAfter(requests, k) {
        var j :| 0 <= j < k - 1 && requests[j].kind == AuthenticateManagement
                 && forall m :: j < m < k - 1 ==> requests[m].kind != ResetPinPukRetries;
        assert forall m :: j < m < k ==> requests[m].kind != ResetPinPukRetries;
      }
    }
  }

  /** The three ordering rules at one place of the list. */
  ghost predicate OrderedAt<S>(requests: seq<Request<S>>, i: nat)
    requires i < |requests|
  {
    && (Mutation(requests[i].kind) ==> ManagementHeld(requests, i))
    && (requests[i].kind == ResetPinPukRetries ==> i > 0 && requests[i - 1].kind == VerifyPin)
    && (requests[i].kind == SetAlgorithmConfig ==> i == |requests| - 1)
  }

  ghost predicate Ordered<S>(requests: seq<Request<S>>) {
    forall i :: 0 <= i < |requests| ==> OrderedAt(requests, i)
  }

  /** Request `i` is the first that breaks a rule or does not prepare. */
  ghost predicate FirstRefused<S>(requests: seq<Request<S>>, i: nat)
    requires i < |requests|
  {
    && (forall k :: 0 <= k < i ==> OrderedAt(requests, k) && requests[k].prepared.Ok?)
    && !(OrderedAt(requests, i) && requests[i].prepared.Ok?)
  }

  /** A broken rule is reported before the request's own error. */
  ghost function Refusal<S>(requests: seq<Request<S>>, i: nat): Error
    requires i < |requests| && FirstRefused(requests, i)
  {
    if OrderedAt(requests, i) then requests[i].prepared.error else Fail(InvalidArgument)
  }

  /** `batch`: total input first, then one pass that keeps two flags and prepares each machine. */
  method Scan<S>(supported: Result<()>, requests: seq<Request<S>>, maxInput: nat) returns (r: Result<seq<S>>)
    requires maxInput <= USIZE_MAX
    ensures r.Ok? <==>
              && supported.Ok? && 1 <= |requests| <= MAX_BATCH_REQUESTS && TotalInput(requests) <= maxInput
              && Ordered(requests) && forall i :: 0 <= i < |requests| ==> requests[i].prepared.Ok?
    ensures r.Ok? ==> |r.value| == |requests|
                      && forall i :: 0 <= i < |requests| ==> requests[i].prepared == Ok(r.value[i])
    ensures r.Err? ==>
              if supported.Err? then r.error == supported.error
              else if !(1 <= |requests| <= MAX_BATCH_REQUESTS) then r.error == Fail(InvalidArgument)
              else if TotalInput(requests) > maxInput then r.error == Fail(LimitExceeded)
              else exists i :: 0 <= i < |requests| && FirstRefused(requests, i) && r.error == Refusal(requests, i)
  {
    hide Mutation, ManagementHeld;
    if supported.Err? {
      return Err(supported.error);
    }
    if requests == [] || |requests| > MAX_BATCH_REQUESTS {
      return Err(Fail(InvalidArgument));
    }
    var input := InputBytes(requests);
    if input.Err? || input.value > maxInput {
      return Err(Fail(LimitExceeded));
    }
    var machines: seq<S> := [];
    var management, previousVerify := false, false;
    for i := 0 to |requests|
      invariant |machines| == i
      invariant management == FlagAfter(requests, i)
      invariant previousVerify == (i > 0 && requests[i - 1].kind == VerifyPin)
      invariant forall k :: 0 <= k < i ==> OrderedAt(requests, k)
      invariant forall k :: 0 <= k < i ==> requests[k].prepared == Ok(machines[k])
    {
      var request := requests[i];
      FlagMeansHeld(requests, i);
      if request.kind == ResetPinPukRetries && !previousVerify {
        assert !OrderedAt(requests, i) && FirstRefused(requests, i);
        return Err(Fail(InvalidArgument));
      }
      if request.kind == SetAlgorithmConfig && i + 1 != |requests| {
        assert !OrderedAt(requests, i) && FirstRefused(requests, i);
        return Err(Fail(InvalidArgument));
      }
      previousVerify := request.kind == VerifyPin;
      if Mutation(request.kind) && !management {
        assert !OrderedAt(requests, i) && FirstRefused(requests, i);
        return Err(Fail(InvalidArgument));
      }
      if request.kind == ResetPinPukRetries {
        management := false;
      }
      if request.prepared.Err? {
        assert FirstRefused(requests, i);
        return Err(request.prepared.error);
      }
      if request.kind == AuthenticateManagement {
        management := true;
      }
      machines := machines + [request.prepared.value];
    }
    return Ok(machines);
  }

  method InputBytes<S>(requests: seq<Request<S>>) returns (r: Result<nat>)
    ensures r == if TotalInput(requests) > USIZE_MAX then Err(Fail(LimitExceeded)) else Ok(TotalInput(requests))
  {
    var total := 0;
    for i := 0 to |requests|
      invariant total == TotalInput(requests[..i]) <= USIZE_MAX
    {
      assert requests[..i + 1][..i] == requests[..i];
      if total + requests[i].inputLength > USIZE_MAX {
        TotalInputGrows(requests, i + 1);
        return Err(Fail(LimitExceeded));
      }
      total := total + requests[i].inputLength;
    }
    assert requests[..|requests|] == requests;
    return Ok(total);
  }

  lemma {:induction false} TotalInputGrows<S>(requests: seq<Request<S>>, i: nat)
    requires i <= |requests|
    ensures TotalInput(requests[..i]) <= TotalInput(requests)
  {
    if i == |requests| {
      assert requests[..i] == requests;
    } else {
      var init := requests[..|requests| - 1];
      assert init[..i] == requests[..i];
      TotalInputGrows(init, i);
    }
  }
}
