/** Bytes, big-endian numbers, errors and card answers shared by every component. */
module Base {

  type Byte = x: int | 0 <= x < 256
  type Bytes = seq<Byte>

  const U64_END: int := 0x1_0000_0000_0000_0000
  type U64 = x: int | 0 <= x < U64_END

  datatype Option<+T> = None | Some(value: T)

  datatype ErrorKind =
    | InvalidArgument
    | InvalidResponse
    | ProtocolViolation
    | LimitExceeded
    | AuthenticationFailed
    | DeviceAuthenticationFailed
    | PinBlocked
    | SecurityStatusNotSatisfied
    | ConditionsNotSatisfied
    | NotFound
    | UnsupportedDevice
    | UnsupportedFeature
    | CapabilityUnknown
    | UnsupportedProtocolVersion
    | UnexpectedStatusWord
    | OperationStateError

  datatype Phase = Construction | Select | Command | Authentication | Parsing

  datatype Error = Error(kind: ErrorKind, phase: Phase, status: Option<nat>)

  datatype Result<+T> = Ok(value: T) | Err(error: Error)

  function Fail(kind: ErrorKind): Error { Error(kind, Construction, None) }

  function FailAt(kind: ErrorKind, phase: Phase): Error { Error(kind, phase, None) }

  /** An answer whose contents make no sense. */
  function Malformed(): Error { FailAt(InvalidResponse, Parsing) }

  /** Classify a failing status word; `credential` says that a PIN reference is attached. */
  function StatusError(sw: nat, phase: Phase, credential: bool): Error {
    var kind :=
      if sw == 0x6983 && credential then PinBlocked
      else if sw == 0x6982 then SecurityStatusNotSatisfied
      else if sw == 0x6985 then ConditionsNotSatisfied
      else if sw == 0x6a82 || sw == 0x6a88 then (if phase == Select then UnsupportedDevice else NotFound)
      else if sw == 0x6d00 || sw == 0x6e00 then UnsupportedFeature
      else if sw / 16 == 0x63c && credential then AuthenticationFailed
      else UnexpectedStatusWord;
    Error(kind, phase, Some(sw))
  }

  /** Which status words mean what: each kind for its own words only, and nothing of the answer lost. */
  lemma StatusIsClassified(sw: nat, phase: Phase, credential: bool)
    ensures var e := StatusError(sw, phase, credential);
            && e.status == Some(sw) && e.phase == phase
            && (e.kind == PinBlocked <==> credential && sw == 0x6983)
            && (e.kind == AuthenticationFailed <==> credential && 0x63c0 <= sw <= 0x63cf)
            && (e.kind == SecurityStatusNotSatisfied <==> sw == 0x6982)
            && (e.kind == ConditionsNotSatisfied <==> sw == 0x6985)
            && (e.kind == UnsupportedDevice <==> phase == Select && (sw == 0x6a82 || sw == 0x6a88))
            && (e.kind == NotFound <==> phase != Select && (sw == 0x6a82 || sw == 0x6a88))
            && (e.kind == UnsupportedFeature <==> sw == 0x6d00 || sw == 0x6e00)
            && e.kind in {PinBlocked, AuthenticationFailed, SecurityStatusNotSatisfied, ConditionsNotSatisfied,
                          UnsupportedDevice, NotFound, UnsupportedFeature, UnexpectedStatusWord}
  {
  }

  /** One reassembled card answer: data and final status word. */
  datatype Response = Response(data: Bytes, sw: nat)

  const SUCCESS: nat := 0x9000

  /** What a protocol machine asks of its driver. */
  datatype Action<+C, +T> = Send(command: C) | Done(output: T)

  function Min(a: int, b: int): int { if a < b then a else b }

  /** Exchanges needed to move `n` bytes in pieces of at most `chunk`. */
  function CeilDiv(n: nat, chunk: nat): nat
    requires chunk > 0
  {
    if n == 0 then 0 else 1 + (n - 1) / chunk
  }

  lemma NothingLeft(chunk: nat)
    requires chunk > 0
    ensures CeilDiv(0, chunk) == 0
  {
  }

  /** Moving one full or final piece takes exactly one off the count. */
  lemma CeilDivStep(n: nat, chunk: nat)
    requires chunk > 0 && n > 0
    ensures CeilDiv(n, chunk) == 1 + CeilDiv(n - Min(n, chunk), chunk)
  {
    if n > chunk {
      DivShift(n - 1 - chunk, chunk);
    } else {
      DivSmall(n - 1, chunk);
    }
  }

  lemma DivShift(n: nat, d: nat)
    requires d > 0
    ensures (n + d) / d == n / d + 1
  {
    var q, r := n / d, n % d;
    assert n + d == d * (q + 1) + r;
    DivUnique(n + d, d, q + 1, r);
  }

  lemma DivSmall(n: nat, d: nat)
    requires n < d
    ensures n / d == 0
  {
  }

  lemma MulAtLeast(d: nat, k: nat)
    requires k >= 1
    ensures d * k >= d
  {
  }

  lemma MulDistrib(d: nat, a: int, b: int)
    ensures d * a - d * b == d * (a - b)
  {
  }

  lemma DivUnique(n: nat, d: nat, q: nat, r: nat)
    requires 0 <= r < d && n == d * q + r
    ensures n / d == q && n % d == r
  {
    var q', r' := n / d, n % d;
    assert n == d * q' + r';
    MulDistrib(d, q, q');
    MulDistrib(d, q', q);
    if q < q' {
      MulAtLeast(d, q' - q);
    } else if q' < q {
      MulAtLeast(d, q - q');
    }
  }

  // ----- Big-endian numbers

  /** The `k` low-order bytes of `n`, most significant first. */
  function Be(n: nat, k: nat): (s: Bytes)
    ensures |s| == k
  {
    if k == 0 then [] else Be(n / 256, k - 1) + [n % 256]
  }

  function BeVal(s: Bytes): nat {
    if s == [] then 0 else BeVal(s[..|s| - 1]) * 256 + s[|s| - 1]
  }

  function Pow256(k: nat): (p: nat)
    ensures p > 0
  {
    if k == 0 then 1 else 256 * Pow256(k - 1)
  }

  lemma Pow256Values()
    ensures Pow256(1) == 0x100 && Pow256(2) == 0x1_0000
    ensures Pow256(4) == 0x1_0000_0000 && Pow256(8) == U64_END
  {
    assert Pow256(3) == 0x100_0000;
    assert Pow256(4) == 0x1_0000_0000;
    assert Pow256(6) == 0x1_0000_0000_0000;
  }

  lemma {:induction false} BeValBe(n: nat, k: nat)
    requires n < Pow256(k)
    ensures BeVal(Be(n, k)) == n
  {
    if k > 0 {
      BeValBe(n / 256, k - 1);
      assert Be(n, k)[..k - 1] == Be(n / 256, k - 1);
    }
  }

  lemma {:induction false} BeBeVal(s: Bytes)
    ensures Be(BeVal(s), |s|) == s
  {
    if s != [] {
      BeBeVal(s[..|s| - 1]);
    }
  }

  lemma {:induction false} BeValBound(s: Bytes)
    ensures BeVal(s) < Pow256(|s|)
  {
    if s != [] {
      BeValBound(s[..|s| - 1]);
    }
  }

  lemma BeVal2(s: Bytes)
    requires |s| == 2
    ensures BeVal(s) == 256 * (s[0] as int) + s[1] < 0x1_0000
  {
    assert s[..1][..0] == [];
    assert BeVal(s[..1]) == s[0];
  }

  // ----- Pieces of a byte string

  /** `w` stands at position `pos` of `bytes`. */
  predicate At(bytes: Bytes, pos: nat, w: Bytes) {
    pos + |w| <= |bytes| && bytes[pos..pos + |w|] == w
  }

  lemma AtConcat(bytes: Bytes, pos: nat, a: Bytes, b: Bytes)
    ensures At(bytes, pos, a + b) <==> At(bytes, pos, a) && At(bytes, pos + |a|, b)
  {
    if At(bytes, pos, a + b) {
      assert bytes[pos..pos + |a|] == bytes[pos..pos + |a + b|][..|a|] == a;
      assert bytes[pos + |a|..pos + |a| + |b|] == bytes[pos..pos + |a + b|][|a|..] == b;
    }
    if At(bytes, pos, a) && At(bytes, pos + |a|, b) {
      assert bytes[pos..pos + |a + b|] == bytes[pos..pos + |a|] + bytes[pos + |a|..pos + |a| + |b|];
    }
  }
}
