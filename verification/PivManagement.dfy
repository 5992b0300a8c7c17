/** Management-key authentication (section 3.2.4 of NIST SP 800-73-4 Part 2) over an abstract block cipher. */
module PivManagement {
  import opened Base
  import opened Sequence
  import opened Tlv

  datatype Le = Absent | Exact(n: nat)

  datatype Command = Command(cla: Byte, ins: Byte, p1: Byte, p2: Byte, data: Bytes, le: Le)

  datatype Algorithm = Tdes | Aes192

  function BlockLength(a: Algorithm): nat { if a.Tdes? then 8 else 16 }

  function WireId(a: Algorithm): Byte { if a.Tdes? then 0x03 else 0x0a }

  /** A management key, seen as the permutation of blocks it stands for. */
  datatype Key = Key(algorithm: Algorithm, encrypt: Bytes -> Bytes, decrypt: Bytes -> Bytes)

  predicate Block(a: Algorithm, b: Bytes) { |b| == BlockLength(a) }

  /** Encryption and decryption are inverse permutations of the blocks. */
  ghost predicate IsCipher(key: Key) {
    forall b :: Block(key.algorithm, b) ==>
      && Block(key.algorithm, key.encrypt(b)) && Block(key.algorithm, key.decrypt(b))
      && key.decrypt(key.encrypt(b)) == b && key.encrypt(key.decrypt(b)) == b
  }

  lemma CipherAt(key: Key, b: Bytes)
    requires IsCipher(key) && Block(key.algorithm, b)
    ensures Block(key.algorithm, key.encrypt(b)) && Block(key.algorithm, key.decrypt(b))
    ensures key.decrypt(key.encrypt(b)) == b && key.encrypt(key.decrypt(b)) == b
  {
  }

  datatype Mode = External | Mutual(challenge: Bytes)

  datatype Auth = Auth(key: Key, mode: Mode)

  /** What the constructors of the source leave possible. */
  ghost predicate ValidAuth(auth: Auth) {
    IsCipher(auth.key) && (auth.mode.Mutual? ==> Block(auth.key.algorithm, auth.mode.challenge))
  }

  function Invalid(): Error { FailAt(InvalidResponse, Authentication) }

  /** `crypt`: one block, either way. */
  function Crypt(key: Key, input: Bytes, decrypt: bool): Result<Bytes> {
    if |input| != BlockLength(key.algorithm) then Err(Invalid())
    else Ok(if decrypt then key.decrypt(input) else key.encrypt(input))
  }

  function PushAll(out: Bytes, limit: nat, fields: seq<(Byte, Bytes)>): Result<Bytes>
    decreases fields
  {
    if fields == [] then Ok(out)
    else
      var r := Push(out, limit, [fields[0].0], fields[0].1);
      if r.Err? then r else PushAll(r.value, limit, fields[1..])
  }

  function GeneralAuthenticate(a: Algorithm, data: Bytes): Command {
    Command.Command(0, 0x87, WireId(a), 0x9b, data, Absent)
  }

  /** `auth_command`: the fields inside one 7C template, under the writers' own limits. */
  function AuthCommand(a: Algorithm, fields: seq<(Byte, Bytes)>): Result<Command> {
    var inner := PushAll([], 36, fields);
    if inner.Err? then Err(inner.error)
    else
      var outer := Push([], 38, [0x7c], inner.value);
      if outer.Err? then Err(outer.error) else Ok(GeneralAuthenticate(a, outer.value))
  }

  function Initial(auth: Auth): Result<Command> {
    AuthCommand(auth.key.algorithm, [(if auth.mode.External? then 0x81 else 0x80, [])])
  }

  /** `auth_status`: the management reference is no PIN, and 6982 means the key was refused. */
  function AuthStatus(sw: nat): Result<()> {
    if sw == SUCCESS then Ok(())
    else if sw == 0x6982 || sw / 16 == 0x63c then Err(Error(AuthenticationFailed, Authentication, Some(sw)))
    else Err(StatusError(sw, Authentication, false))
  }

  /** `auth_field`: the only field of the only template of an answer. */
  function AuthField(data: Bytes, tag: Byte, length: nat): Result<Bytes> {
    var wrapped := Read(data, 18);
    if wrapped.Err? then Err(wrapped.error)
    else if wrapped.value.None? || wrapped.value.value.tag != [0x7c] then Err(Invalid())
    else
      var behind := Read(wrapped.value.value.rest, 18);
      if behind.Err? then Err(behind.error)
      else if behind.value.Some? then Err(Invalid())
      else
        var field := Read(wrapped.value.value.value, 18);
        if field.Err? then Err(field.error)
        else if field.value.None? || field.value.value.tag != [tag] || |field.value.value.value| != length then
          Err(Invalid())
        else
          var last := Read(field.value.value.rest, 18);
          if last.Err? then Err(last.error)
          else if last.value.Some? then Err(Invalid())
          else Ok(field.value.value.value)
  }

  datatype Management = Management(auth: Auth, stage: nat)

  /** The second command: the decrypted witness with the host challenge, or the encrypted challenge. */
  function Reply(auth: Auth, value: Bytes): seq<(Byte, Bytes)> {
    if auth.mode.Mutual? then [(0x80, value), (0x81, auth.mode.challenge)] else [(0x82, value)]
  }

  /** The check of the last answer. */
  function Concluded(auth: Auth, data: Bytes): Result<()> {
    match auth.mode
    case External => if data != [] then Err(Invalid()) else Ok(())
    case Mutual(challenge) =>
      var actual := AuthField(data, 0x82, BlockLength(auth.key.algorithm));
      if actual.Err? then Err(actual.error)
      else
        var expected := Crypt(auth.key, challenge, false);
        if expected.Err? then Err(expected.error)
        else if expected.value != actual.value then Err(FailAt(DeviceAuthenticationFailed, Authentication))
        else Ok(())
  }

  /** One call of the management machine. */
  function ManagementNext(m: Management, response: Option<Response>): (Management, Result<Action<Command, ()>>) {
    if m.stage == 0 then
      var c := Initial(m.auth);
      (m.(stage := 1), if c.Err? then Err(c.error) else Ok(Send(c.value)))
    else if m.stage > 2 then (m, Err(Fail(OperationStateError)))
    else if response.None? then (m, Err(Invalid()))
    else
      var status := AuthStatus(response.value.sw);
      if status.Err? then (m, Err(status.error))
      else if m.stage == 1 then
        var tag := if m.auth.mode.Mutual? then 0x80 else 0x81;
        var given := AuthField(response.value.data, tag, BlockLength(m.auth.key.algorithm));
        if given.Err? then (m, Err(given.error))
        else
          var value := Crypt(m.auth.key, given.value, m.auth.mode.Mutual?);
          if value.Err? then (m, Err(value.error))
          else
            var c := AuthCommand(m.auth.key.algorithm, Reply(m.auth, value.value));
            (m.(stage := 2), if c.Err? then Err(c.error) else Ok(Send(c.value)))
      else
        var end := Concluded(m.auth, response.value.data);
        if end.Err? then (m, Err(end.error)) else (m.(stage := 3), Ok(Done(())))
  }

  const ManagementStep: Next<Management, Command, ()> := (m, response) => ManagementNext(m, response)

  class ManagementMachine {
    const auth: Auth
    var stage: nat

    constructor (auth: Auth)
      ensures this.auth == auth && State() == Management(auth, 0)
    {
      this.auth, stage := auth, 0;
    }

    function State(): Management
      reads this
    {
      Management(auth, stage)
    }

    method Next(response: Option<Response>) returns (r: Result<Action<Command, ()>>)
      modifies this
      ensures (State(), r) == ManagementNext(old(State()), response)
    {
      hide AuthField, AuthCommand, AuthStatus;
      if stage == 0 {
        stage := 1;
        var initial := Initial(auth);
        return if initial.Err? then Err(initial.error) else Ok(Send(initial.value));
      }
      if stage > 2 {
        return Err(Fail(OperationStateError));
      }
      if response.None? {
        return Err(Invalid());
      }
      var status := AuthStatus(response.value.sw);
      if status.Err? {
        return Err(status.error);
      }
      var length := BlockLength(auth.key.algorithm);
      if stage == 1 {
        var mutual := auth.mode.Mutual?;
        var given := AuthField(response.value.data, if mutual then 0x80 else 0x81, length);
        if given.Err? {
          return Err(given.error);
        }
        var value := Crypt(auth.key, given.value, mutual);
        if value.Err? {
          return Err(value.error);
        }
        stage := 2;
        var reply := AuthCommand(auth.key.algorithm, Reply(auth, value.value));
        return if reply.Err? then Err(reply.error) else Ok(Send(reply.value));
      }
      var end := Concluded(auth, response.value.data);
      if end.Err? {
        return Err(end.error);
      }
      stage := 3;
      return Ok(Done(()));
    }
  }

  // ----- The messages, in closed form

  /** A template of one field. */
  function Template(tag: Byte, value: Bytes): Bytes
    requires |value| <= 16
  {
    [0x7c, |value| + 2, tag, |value|] + value
  }

  /** A template of two fields. */
  function Pair(proof: Bytes, challenge: Bytes): Bytes
    requires |proof| <= 16 && |challenge| <= 16
  {
    [0x7c, |proof| + |challenge| + 4, 0x80, |proof|] + proof + [0x81, |challenge|] + challenge
  }

  /** `auth_field` accepts one byte string per value. */
  lemma AuthFieldExact(data: Bytes, tag: Byte, value: Bytes, length: nat)
    requires length <= 16 && IsTag([tag])
    ensures AuthField(data, tag, length) == Ok(value) <==> |value| == length && data == Template(tag, value)
  {
    hide Read;
    assert IsTag([0x7c]);
    if AuthField(data, tag, length) == Ok(value) {
      var wrapped := Read(data, 18).value.value;
      var field := Read(wrapped.value, 18).value.value;
      ReaderMirrorsWriter(data, 18, wrapped);
      ReaderMirrorsWriter(wrapped.value, 18, field);
      assert wrapped.rest == [] by { ReadEnd(wrapped.rest, 18); }
      assert field.rest == [] by { ReadEnd(field.rest, 18); }
      assert data == Template(tag, value);
    }
    if |value| == length && data == Template(tag, value) {
      var inner := [tag, |value|] + value;
      assert data == Item([0x7c], inner) + [];
      assert inner == Item([tag], value) + [];
      ReaderMirrorsWriter(data, 18, Field([0x7c], inner, []));
      ReaderMirrorsWriter(inner, 18, Field([tag], value, []));
      ReadEnd([], 18);
    }
  }

  lemma ReadEnd(bytes: Bytes, max: nat)
    ensures Read(bytes, max) == Ok(None) <==> bytes == []
  {
  }

  /** The writers' limits are never met: both commands can always be built. */
  lemma CommandsAreBuilt(a: Algorithm, tag: Byte, value: Bytes, challenge: Bytes)
    requires |value| <= 16 && |challenge| <= 16
    ensures AuthCommand(a, [(tag, value)]) == Ok(GeneralAuthenticate(a, Template(tag, value)))
    ensures AuthCommand(a, [(0x80, value), (0x81, challenge)]) == Ok(GeneralAuthenticate(a, Pair(value, challenge)))
  {
    var one := [tag, |value|] + value;
    assert Item([tag], value) == one;
    assert PushAll([], 36, [(tag, value)]) == Ok(one) by {
      assert [(tag, value)][1..] == [];
      assert [] + one == one;
    }
    assert [] + Item([0x7c], one) == Template(tag, value);
    PairIsBuilt(a, value, challenge);
  }

  lemma PairIsBuilt(a: Algorithm, value: Bytes, challenge: Bytes)
    requires |value| <= 16 && |challenge| <= 16
    ensures AuthCommand(a, [(0x80, value), (0x81, challenge)]) == Ok(GeneralAuthenticate(a, Pair(value, challenge)))
  {
    var first := [0x80, |value|] + value;
    var second := [0x81, |challenge|] + challenge;
    assert Item([0x80], value) == first && Item([0x81], challenge) == second;
    var fields: seq<(Byte, Bytes)> := [(0x80, value), (0x81, challenge)];
    assert [] + first == first;
    assert |fields[1..]| == 1 && fields[1..][0] == fields[1] && fields[1..][1..] == [];
    assert PushAll(first, 36, fields[1..]) == Ok(first + second);
    assert PushAll([], 36, fields) == Ok(first + second);
    assert [] + Item([0x7c], first + second) == Pair(value, challenge);
  }

  // ----- Whole runs

  /** The answer that the machine goes on from after its first command. */
  predicate Opening(auth: Auth, a: Response) {
    && a.sw == SUCCESS
    && |a.data| == 4 + BlockLength(auth.key.algorithm)
    && a.data == Template(if auth.mode.Mutual? then 0x80 else 0x81, a.data[4..])
  }

  /** The answer that completes the authentication. */
  ghost predicate Closing(auth: Auth, a: Response)
    requires ValidAuth(auth)
  {
    && a.sw == SUCCESS
    && a.data == if auth.mode.Mutual? then Template(0x82, auth.key.encrypt(auth.mode.challenge)) else []
  }

  function FirstMessage(auth: Auth): Command {
    GeneralAuthenticate(auth.key.algorithm, Template(if auth.mode.Mutual? then 0x80 else 0x81, []))
  }

  /** The host proves the key: it decrypts the card's witness, or encrypts the card's challenge. */
  ghost function SecondMessage(auth: Auth, a: Response): Command
    requires ValidAuth(auth) && Opening(auth, a)
  {
    var given := a.data[4..];
    assert Block(auth.key.algorithm, given);
    GeneralAuthenticate(
      auth.key.algorithm,
      if auth.mode.Mutual? then Pair(auth.key.decrypt(given), auth.mode.challenge)
      else Template(0x82, auth.key.encrypt(given)))
  }

  lemma FirstStep(auth: Auth)
    ensures ManagementNext(Management(auth, 0), None) == (Management(auth, 1), Ok(Send(FirstMessage(auth))))
  {
    hide AuthCommand;
    CommandsAreBuilt(auth.key.algorithm, if auth.mode.Mutual? then 0x80 else 0x81, [], []);
  }

  lemma SecondStep(auth: Auth, a: Response)
    requires ValidAuth(auth)
    ensures var (m, r) := ManagementNext(Management(auth, 1), Some(a));
            if Opening(auth, a) then m == Management(auth, 2) && r == Ok(Send(SecondMessage(auth, a)))
            else m == Management(auth, 1) && r.Err?
  {
    hide AuthCommand, AuthField;
    var tag := if auth.mode.Mutual? then 0x80 else 0x81;
    var n := BlockLength(auth.key.algorithm);
    var field := AuthField(a.data, tag, n);
    if field.Ok? {
      AuthFieldExact(a.data, tag, field.value, n);
      assert a.data[4..] == field.value;
    }
    if Opening(auth, a) {
      var given := a.data[4..];
      AuthFieldExact(a.data, tag, given, n);
      assert Block(auth.key.algorithm, given);
      CommandsAreBuilt(auth.key.algorithm, 0x82, auth.key.encrypt(given), []);
      if auth.mode.Mutual? {
        PairIsBuilt(auth.key.algorithm, auth.key.decrypt(given), auth.mode.challenge);
      }
    }
  }

  lemma ThirdStep(auth: Auth, a: Response)
    requires ValidAuth(auth)
    ensures var (m, r) := ManagementNext(Management(auth, 2), Some(a));
            if Closing(auth, a) then m == Management(auth, 3) && r == Ok(Done(()))
            else m == Management(auth, 2) && r.Err?
  {
    hide AuthField;
    if auth.mode.Mutual? {
      var n := BlockLength(auth.key.algorithm);
      assert Block(auth.key.algorithm, auth.mode.challenge);
      var expected := auth.key.encrypt(auth.mode.challenge);
      AuthFieldExact(a.data, 0x82, expected, n);
    }
  }

  /**
   Over all card answers: the authentication completes exactly when the first answer carries one
   block under the tag asked for and the second closes the exchange, which in a mutual run means
   that it is the encryption of the host's challenge under the host's key.
   */
  lemma AuthenticationCompletesIff(auth: Auth, answers: seq<Response>)
    requires ValidAuth(auth)
    ensures var p := Solo(ManagementStep, Management(auth, 0), None, answers);
            && (p.Finished? <==> |answers| >= 2 && Opening(auth, answers[0]) && Closing(auth, answers[1]))
            && (p.Finished? ==> p.rest == answers[2..])
            && (answers == [] ==> p == Pending(Management(auth, 1), FirstMessage(auth)))
            && (|answers| == 1 && Opening(auth, answers[0]) ==>
                  p == Pending(Management(auth, 2), SecondMessage(auth, answers[0])))
  {
    hide Solo, ManagementNext, Opening, Closing, SecondMessage, FirstMessage;
    FirstStep(auth);
    SoloUnfold(ManagementStep, Management(auth, 0), None, answers);
    if |answers| >= 1 {
      SecondStep(auth, answers[0]);
      SoloUnfold(ManagementStep, Management(auth, 1), Some(answers[0]), answers[1..]);
    }
    if |answers| >= 2 {
      ThirdStep(auth, answers[1]);
      SoloUnfold(ManagementStep, Management(auth, 2), Some(answers[1]), answers[1..][1..]);
    }
  }

  /** A failing status ends the run with its status word, and is never read as a blocked PIN. */
  lemma CardFailureIsReported(auth: Auth, first: Response, second: Response, atOnce: bool)
    requires ValidAuth(auth)
    requires if atOnce then first.sw != SUCCESS else Opening(auth, first) && second.sw != SUCCESS
    ensures var p := Solo(ManagementStep, Management(auth, 0), None, [first, second]);
            var sw := if atOnce then first.sw else second.sw;
            && p.Failed? && p.error.status == Some(sw) && p.error.phase == Authentication
            && (p.error.kind == AuthenticationFailed <==> sw == 0x6982 || sw / 16 == 0x63c)
            && p.error.kind != PinBlocked
  {
    hide Solo, Opening, SecondMessage, FirstMessage, AuthField, AuthCommand;
    var answers := [first, second];
    FirstStep(auth);
    SecondStep(auth, first);
    SoloUnfold(ManagementStep, Management(auth, 0), None, answers);
    SoloUnfold(ManagementStep, Management(auth, 1), Some(first), answers[1..]);
    SoloUnfold(ManagementStep, Management(auth, 2), Some(second), answers[1..][1..]);
  }

  /** A well-formed cryptogram that is not the encryption of the challenge is told apart. */
  lemma WrongCryptogramIsReported(auth: Auth, first: Response, cryptogram: Bytes, more: seq<Response>)
    requires ValidAuth(auth) && auth.mode.Mutual? && Opening(auth, first)
    requires Block(auth.key.algorithm, cryptogram) && cryptogram != auth.key.encrypt(auth.mode.challenge)
    ensures Solo(ManagementStep, Management(auth, 0), None, [first, Response(Template(0x82, cryptogram), SUCCESS)] + more)
         == Failed(Management(auth, 2), FailAt(DeviceAuthenticationFailed, Authentication))
  {
    hide Solo, ManagementNext, Opening, SecondMessage, FirstMessage;
    var second := Response(Template(0x82, cryptogram), SUCCESS);
    var answers := [first, second] + more;
    FirstStep(auth);
    SecondStep(auth, first);
    WrongCryptogramStep(auth, cryptogram);
    SoloUnfold(ManagementStep, Management(auth, 0), None, answers);
    SoloUnfold(ManagementStep, Management(auth, 1), Some(first), answers[1..]);
    SoloUnfold(ManagementStep, Management(auth, 2), Some(second), answers[1..][1..]);
  }

  lemma WrongCryptogramStep(auth: Auth, cryptogram: Bytes)
    requires ValidAuth(auth) && auth.mode.Mutual?
    requires Block(auth.key.algorithm, cryptogram) && cryptogram != auth.key.encrypt(auth.mode.challenge)
    ensures ManagementNext(Management(auth, 2), Some(Response(Template(0x82, cryptogram), SUCCESS)))
         == (Management(auth, 2), Err(FailAt(DeviceAuthenticationFailed, Authentication)))
  {
    hide AuthField;
    AuthFieldExact(Template(0x82, cryptogram), 0x82, cryptogram, BlockLength(auth.key.algorithm));
  }

  // ----- Against a card

  /**
   A card that holds `key` and drew `nonce` for this exchange. It knows the command by its header,
   the key type by its identifier, and the fields by their bytes.
   */
  function CardAnswer(key: Key, nonce: Bytes, c: Command): Response
    requires Block(key.algorithm, nonce) && Block(key.algorithm, key.encrypt(nonce))
  {
    var n := if key.algorithm.Tdes? then 8 else 16;
    if c.cla != 0 || c.ins != 0x87 || c.p2 != 0x9b then Response([], 0x6d00)
    else if c.p1 != (if key.algorithm.Tdes? then 0x03 else 0x0a) then Response([], 0x6a86)
    else if c.data == [0x7c, 0x02, 0x80, 0x00] then Response([0x7c, n + 2, 0x80, n] + key.encrypt(nonce), SUCCESS)
    else if c.data == [0x7c, 0x02, 0x81, 0x00] then Response([0x7c, n + 2, 0x81, n] + nonce, SUCCESS)
    else if |c.data| == 4 + n && c.data[..4] == [0x7c, n + 2, 0x82, n] then
      Response([], if c.data[4..] == key.encrypt(nonce) then SUCCESS else 0x6982)
    else if |c.data| == 6 + 2 * n && c.data[..4] == [0x7c, 2 * n + 4, 0x80, n]
            && c.data[4 + n..6 + n] == [0x81, n] && |key.encrypt(c.data[6 + n..])| == n then
      if c.data[4..4 + n] == nonce then Response([0x7c, n + 2, 0x82, n] + key.encrypt(c.data[6 + n..]), SUCCESS)
      else Response([], 0x6982)
    else Response([], 0x6a80)
  }

  /** The two answers of the card to the two commands of the host. */
  ghost function Exchange(auth: Auth, card: Key, nonce: Bytes): seq<Response>
    requires Block(card.algorithm, nonce) && Block(card.algorithm, card.encrypt(nonce))
  {
    var p := Solo(ManagementStep, Management(auth, 0), None, []);
    if !p.Pending? then []
    else
      var first := CardAnswer(card, nonce, p.command);
      var q := Solo(ManagementStep, Management(auth, 0), None, [first]);
      if !q.Pending? then [first] else [first, CardAnswer(card, nonce, q.command)]
  }

  /** The keys treat every block that this exchange puts through them alike. */
  ghost predicate Agree(auth: Auth, card: Key, nonce: Bytes) {
    && card.algorithm == auth.key.algorithm
    && card.encrypt(nonce) == auth.key.encrypt(nonce)
    && (auth.mode.Mutual? ==> card.encrypt(auth.mode.challenge) == auth.key.encrypt(auth.mode.challenge))
  }

  lemma PairParts(x: Bytes, y: Bytes)
    requires |x| == |y| <= 16
    ensures var n := |x|;
            var d := Pair(x, y);
            && |d| == 6 + 2 * n && d[..4] == [0x7c, 2 * n + 4, 0x80, n] && d[4..4 + n] == x
            && d[4 + n..6 + n] == [0x81, n] && d[6 + n..] == y
  {
    var n := |x|;
    var d := Pair(x, y);
    assert d[..4] == [0x7c, 2 * n + 4, 0x80, n];
    assert d[4..4 + n] == x;
    assert d[4 + n..6 + n] == [0x81, n];
    assert d[6 + n..] == y;
  }

  lemma AnswerToPair(card: Key, nonce: Bytes, x: Bytes, y: Bytes)
    requires IsCipher(card) && Block(card.algorithm, nonce) && Block(card.algorithm, card.encrypt(nonce))
    requires Block(card.algorithm, x) && Block(card.algorithm, y)
    ensures CardAnswer(card, nonce, GeneralAuthenticate(card.algorithm, Pair(x, y)))
         == if x == nonce then Response(Template(0x82, card.encrypt(y)), SUCCESS) else Response([], 0x6982)
  {
    PairParts(x, y);
    hide Pair;
  }

  lemma AnswerToCryptogram(card: Key, nonce: Bytes, v: Bytes)
    requires IsCipher(card) && Block(card.algorithm, nonce) && Block(card.algorithm, card.encrypt(nonce))
    requires Block(card.algorithm, v)
    ensures CardAnswer(card, nonce, GeneralAuthenticate(card.algorithm, Template(0x82, v)))
         == Response([], if v == card.encrypt(nonce) then SUCCESS else 0x6982)
  {
    var n := |v|;
    var d := Template(0x82, v);
    assert d[..4] == [0x7c, n + 2, 0x82, n];
    assert d[4..] == v;
  }

  lemma FirstAnswer(auth: Auth, card: Key, nonce: Bytes, first: Response)
    requires Block(card.algorithm, nonce) && Block(card.algorithm, card.encrypt(nonce))
    requires first == CardAnswer(card, nonce, FirstMessage(auth))
    ensures Opening(auth, first) <==> card.algorithm == auth.key.algorithm
    ensures Opening(auth, first) ==> first.data[4..] == if auth.mode.Mutual? then card.encrypt(nonce) else nonce
  {
    if card.algorithm == auth.key.algorithm {
      var given := if auth.mode.Mutual? then card.encrypt(nonce) else nonce;
      var tag := if auth.mode.Mutual? then 0x80 else 0x81;
      assert Template(0x80, [])[2] == 0x80 && Template(0x81, [])[2] == 0x81;
      assert first.data == Template(tag, given);
      assert first.data[4..] == given;
    }
  }

  lemma MutualAnswer(auth: Auth, card: Key, nonce: Bytes, first: Response)
    requires ValidAuth(auth) && IsCipher(card) && auth.mode.Mutual? && auth.key.algorithm == card.algorithm
    requires Block(card.algorithm, nonce) && Block(card.algorithm, card.encrypt(nonce))
    requires Opening(auth, first) && first.data[4..] == card.encrypt(nonce)
    ensures Closing(auth, CardAnswer(card, nonce, SecondMessage(auth, first))) <==> Agree(auth, card, nonce)
  {
    hide CardAnswer, Opening, Pair, Template, IsCipher;
    var given, challenge := card.encrypt(nonce), auth.mode.challenge;
    CipherAt(auth.key, given);
    CipherAt(auth.key, nonce);
    CipherAt(auth.key, challenge);
    CipherAt(card, challenge);
    AnswerToPair(card, nonce, auth.key.decrypt(given), challenge);
    TemplateInjective(0x82, card.encrypt(challenge), auth.key.encrypt(challenge));
  }

  lemma ExternalAnswer(auth: Auth, card: Key, nonce: Bytes, first: Response)
    requires ValidAuth(auth) && IsCipher(card) && auth.mode.External? && auth.key.algorithm == card.algorithm
    requires Block(card.algorithm, nonce) && Block(card.algorithm, card.encrypt(nonce))
    requires Opening(auth, first) && first.data[4..] == nonce
    ensures Closing(auth, CardAnswer(card, nonce, SecondMessage(auth, first))) <==> Agree(auth, card, nonce)
  {
    hide CardAnswer, Opening, Pair, Template, IsCipher;
    CipherAt(auth.key, nonce);
    AnswerToCryptogram(card, nonce, auth.key.encrypt(nonce));
  }

  lemma SecondAnswer(auth: Auth, card: Key, nonce: Bytes, first: Response)
    requires ValidAuth(auth) && IsCipher(card)
    requires Block(card.algorithm, nonce) && Block(card.algorithm, card.encrypt(nonce))
    requires first == CardAnswer(card, nonce, FirstMessage(auth)) && Opening(auth, first)
    ensures Closing(auth, CardAnswer(card, nonce, SecondMessage(auth, first))) <==> Agree(auth, card, nonce)
  {
    hide *;
    FirstAnswer(auth, card, nonce, first);
    if auth.mode.Mutual? {
      MutualAnswer(auth, card, nonce, first);
    } else {
      ExternalAnswer(auth, card, nonce, first);
    }
  }

  lemma TemplateInjective(tag: Byte, a: Bytes, b: Bytes)
    requires |a| <= 16 && |b| <= 16
    ensures Template(tag, a) == Template(tag, b) <==> a == b
  {
    if Template(tag, a) == Template(tag, b) {
      assert a == Template(tag, a)[4..] == Template(tag, b)[4..] == b;
    }
  }

  /**
   Against a card that follows the protocol with its own key, the run completes exactly when the
   two keys agree on what the exchange shows; in particular it always completes when they are equal.
   */
  lemma CompletesAgainstCardIff(auth: Auth, card: Key, nonce: Bytes)
    requires ValidAuth(auth) && IsCipher(card) && Block(card.algorithm, nonce)
    requires Block(card.algorithm, card.encrypt(nonce))
    ensures Solo(ManagementStep, Management(auth, 0), None, Exchange(auth, card, nonce)).Finished?
       <==> Agree(auth, card, nonce)
    ensures card == auth.key ==> Agree(auth, card, nonce)
  {
    hide Solo, ManagementNext, Opening, Closing, SecondMessage, FirstMessage, CardAnswer, IsCipher;
    var first := CardAnswer(card, nonce, FirstMessage(auth));
    AuthenticationCompletesIff(auth, []);
    AuthenticationCompletesIff(auth, [first]);
    AuthenticationCompletesIff(auth, Exchange(auth, card, nonce));
    FirstAnswer(auth, card, nonce, first);
    if card.algorithm == auth.key.algorithm {
      SecondAnswer(auth, card, nonce, first);
    }
  }
}
