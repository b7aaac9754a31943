/**
 The signing session as a step function: the dispatcher (src/apdu/dispatcher.c), the handlers
 (src/handler/sign_tx.c, src/handler/get_public_key.c), the guard of the review
 (src/ui/nbgl_display_transaction.c) and its answer (src/ui/action/validate.c).

 SHA-256 (FIPS 180-4, section 6.2) and Ed25519 signing (section 5.1.6 of RFC 8032) are the two
 arbitrary functions of a `Crypto`; every statement holds for all of them. A call that may fail
 takes its outcome from the event.
 */
module Session {
  import opened ByteString
  import opened Wire
  import opened WireTheorems
  import opened Screen

  type Digest = b: Bytes | |b| == 32 witness Zeros(32)
  type Signature = b: Bytes | |b| == 64 witness Zeros(64)

  const PUBKEY_LEN := 65
  const CHAINCODE_LEN := 32
  type PubKey = b: Bytes | |b| == PUBKEY_LEN witness Zeros(PUBKEY_LEN)
  type ChainCode = b: Bytes | |b| == CHAINCODE_LEN witness Zeros(CHAINCODE_LEN)
  const MAX_BIP32_PATH := 10

  /** bip32_path_len and the whole bip32_path array. */
  datatype Path = Path(len: byte, words: seq<u32>)

  datatype Crypto = Crypto(sha256: Bytes -> Digest, sign: (Path, Digest) -> Signature)

  // ---- the global context ----

  datatype State = StateNone | StateParsed | StateApproved
  datatype ReqType = ConfirmAddress | ConfirmTransaction | ConfirmTokenTransaction

  /** G_context; `raw` is raw_tx[..raw_tx_len]. */
  datatype Context = Context(state: State, reqType: ReqType, raw: Bytes, hash: Digest, path: Path)

  const NO_PATH := Path(0, Zeros(MAX_BIP32_PATH))

  /** explicit_bzero of the context. */
  const WIPED := Context(StateNone, ConfirmAddress, [], Zeros(32), NO_PATH)

  datatype Sw =
    | Success
    | InvalidCla
    | InvalidIns
    | IncorrectP1P2
    | WrongDataLength
    | ConditionsNotSatisfied
    | IncorrectData
    | SecurityIssue
    | InvalidDynamicToken
    | KeyError(code: nat)

  /** What one event makes the device send or show. */
  datatype Output =
    | Status(sw: Sw)
    | Info(ins: byte)
    | PublicKey(data: Bytes)
    | Signed(data: Bytes)
    | EmailReview(screen: seq<Pair>)
    | AddressReview
    | Nothing

  // ---- BIP32 path ----

  function PathWord(data: Bytes, i: nat): u32
    requires data != []
  {
    if data[0] <= MAX_BIP32_PATH && i < data[0] && 1 + 4 * i + 4 <= |data| then ReadU32be(data[1 + 4 * i..]) else 0
  }

  function PathWords(data: Bytes, n: nat): (w: seq<u32>)
    requires data != []
    ensures |w| == n && forall i :: 0 <= i < n ==> w[i] == PathWord(data, i)
  {
    if n == 0 then [] else PathWords(data, n - 1) + [PathWord(data, n - 1)]
  }

  /** The SDK's path reader: one to ten big-endian words; a short input leaves the missing ones at zero. */
  function PathOf(data: Bytes): (p: Path)
    ensures |p.words| == MAX_BIP32_PATH
  {
    if data == [] then NO_PATH else Path(data[0], PathWords(data, MAX_BIP32_PATH))
  }

  predicate PathOk(data: Bytes) {
    data != [] && 1 <= data[0] <= MAX_BIP32_PATH && 1 + 4 * data[0] <= |data|
  }

  // ---- handlers ----

  function ReqOf(token: bool): ReqType {
    if token then ConfirmTokenTransaction else ConfirmTransaction
  }

  function InitContext(data: Bytes, token: bool): (Context, Sw) {
    (WIPED.(reqType := ReqOf(token), path := PathOf(data)), if PathOk(data) then Success else WrongDataLength)
  }

  function Accumulate(ctx: Context, data: Bytes, token: bool): (Context, Sw) {
    if ctx.reqType != ReqOf(token) then (ctx, ConditionsNotSatisfied)
    else if |ctx.raw| + |data| > MAX_TX_LEN then (ctx, WrongDataLength)
    else (ctx.(raw := ctx.raw + data), Success)
  }

  /** `fault` is the digest buffer left behind by a hash call that fails. */
  function Process(c: Crypto, ctx: Context, fault: Option<Digest>): (r: (Context, Sw))
    ensures r.0.raw == ctx.raw && (r.1 == Success ==> Accepted(ctx.raw))
  {
    if !Accepted(ctx.raw) then (ctx, IncorrectData)
    else
      match fault
      case None => (ctx.(state := StateParsed, hash := c.sha256(ctx.raw)), Success)
      case Some(left) => (ctx.(state := StateParsed, hash := left), IncorrectData)
  }

  function OpenReview(ctx: Context): (Context, Output)
    requires Accepted(ctx.raw)
  {
    if ctx.reqType != ConfirmTransaction || ctx.state != StateParsed then
      (ctx.(state := StateNone), Status(ConditionsNotSatisfied))
    else (ctx, EmailReview(ScreenOf(Decode(ctx.raw))))
  }

  function ProcessThenReview(c: Crypto, ctx: Context, fault: Option<Digest>): (Context, Output) {
    var (ctx', sw) := Process(c, ctx, fault);
    if sw != Success then (ctx', Status(sw)) else OpenReview(ctx')
  }

  function SignTx(c: Crypto, ctx: Context, data: Bytes, chunk: byte, more: bool, token: bool, fault: Option<Digest>)
    : (Context, Output)
  {
    if chunk == 0 then
      var (ctx', sw) := InitContext(data, token);
      (ctx', Status(sw))
    else
      var (ctx', sw) := Accumulate(ctx, data, token);
      if sw != Success || more then (ctx', Status(sw)) else ProcessThenReview(c, ctx', fault)
  }

  /** The outcome of key derivation, point compression and address computation. */
  datatype KeyOutcome = NoKey(code: nat) | Key(pub: PubKey, chain: ChainCode, addressOk: bool)

  function PackKey(pub: PubKey, chain: ChainCode): Bytes {
    [PUBKEY_LEN] + pub + [CHAINCODE_LEN] + chain
  }

  function GetPublicKey(data: Bytes, display: bool, key: KeyOutcome): (Context, Output) {
    (WIPED.(reqType := ConfirmAddress, path := PathOf(data)),
     if !PathOk(data) then Status(WrongDataLength)
     else
       match key
       case NoKey(code) => Status(KeyError(code))
       case Key(pub, chain, addressOk) =>
         if !display then PublicKey(PackKey(pub, chain))
         else if addressOk then AddressReview
         else Status(IncorrectData))
  }

  // ---- dispatcher ----

  const CLA: byte := 0xE0
  const GET_VERSION: byte := 0x03
  const GET_APP_NAME: byte := 0x04
  const GET_PUBLIC_KEY: byte := 0x05
  const SIGN_TX: byte := 0x06
  const SIGN_TOKEN_TX: byte := 0x07
  const PROVIDE_TOKEN_INFO: byte := 0x22
  const P1_START: byte := 0x00
  const P1_MAX: byte := 0x10
  const P2_LAST: byte := 0x00
  const P2_MORE: byte := 0x80

  /** command_t; data is absent exactly when it is empty. */
  datatype Command = Command(cla: byte, ins: byte, p1: byte, p2: byte, data: Bytes)

  datatype Env = Env(fault: Option<Digest>, key: KeyOutcome, tokenOk: bool)

  predicate SignP1P2Ok(p1: byte, p2: byte) {
    !((p1 == P1_START && p2 != P2_MORE) || p1 > P1_MAX || (p2 != P2_LAST && p2 != P2_MORE))
  }

  function DispatchGetPublicKey(ctx: Context, cmd: Command, key: KeyOutcome): (Context, Output) {
    if cmd.p1 > 1 || cmd.p2 > 0 then (ctx, Status(IncorrectP1P2))
    else if cmd.data == [] then (ctx, Status(WrongDataLength))
    else GetPublicKey(cmd.data, cmd.p1 == 1, key)
  }

  function DispatchSign(c: Crypto, ctx: Context, cmd: Command, fault: Option<Digest>): (Context, Output) {
    if !SignP1P2Ok(cmd.p1, cmd.p2) then (ctx, Status(IncorrectP1P2))
    else if cmd.data == [] then (ctx, Status(WrongDataLength))
    else SignTx(c, ctx, cmd.data, cmd.p1, cmd.p2 == P2_MORE, cmd.ins == SIGN_TOKEN_TX, fault)
  }

  function Dispatch(c: Crypto, ctx: Context, cmd: Command, env: Env): (Context, Output) {
    if cmd.cla != CLA then (ctx, Status(InvalidCla))
    else if cmd.ins == GET_VERSION || cmd.ins == GET_APP_NAME then
      (ctx, if cmd.p1 != 0 || cmd.p2 != 0 then Status(IncorrectP1P2) else Info(cmd.ins))
    else if cmd.ins == GET_PUBLIC_KEY then DispatchGetPublicKey(ctx, cmd, env.key)
    else if cmd.ins == SIGN_TX || cmd.ins == SIGN_TOKEN_TX then DispatchSign(c, ctx, cmd, env.fault)
    else if cmd.ins == PROVIDE_TOKEN_INFO then
      (ctx,
       if cmd.p1 != 0 || cmd.p2 != 0 then Status(IncorrectP1P2)
       else if cmd.data == [] then Status(WrongDataLength)
       else Status(if env.tokenOk then Success else InvalidDynamicToken))
    else (ctx, Status(InvalidIns))
  }

  // ---- the device and its events ----

  /** Which review the device waits on; the reply to the last command is then still owed. */
  datatype Pending = Idle | OnEmail | OnAddress(reply: Bytes)

  datatype Device = Device(ctx: Context, pending: Pending)

  datatype Event =
    | Garbled                              // apdu_parser refused the bytes
    | Apdu(cmd: Command, env: Env)
    | Choice(confirm: bool, signOk: bool)  // the human answered the review

  /** After app_main reset the context. */
  const START := Device(WIPED, Idle)

  /** Request/response: while a review is pending the next event is its answer. */
  predicate Enabled(s: Device, e: Event) {
    e.Choice? <==> !s.pending.Idle?
  }

  function PackSignature(sig: Signature): (r: Bytes)
    ensures |r| == 66
  {
    [|sig|] + sig + [0]
  }

  function PendingOf(out: Output, env: Env): Pending {
    if out.EmailReview? then OnEmail
    else if out.AddressReview? && env.key.Key? then OnAddress(PackKey(env.key.pub, env.key.chain))
    else Idle
  }

  /** validate_transaction. */
  function Validate(c: Crypto, ctx: Context, confirm: bool, signOk: bool): (Context, Output) {
    if !confirm then (ctx.(state := StateNone), Status(ConditionsNotSatisfied))
    else if !signOk then (ctx.(state := StateNone), Status(SecurityIssue))
    else (ctx.(state := StateApproved), Signed(PackSignature(c.sign(ctx.path, ctx.hash))))
  }

  function Step(c: Crypto, s: Device, e: Event): (Device, Output) {
    match e
    case Garbled => (s, Status(WrongDataLength))
    case Apdu(cmd, env) =>
      var (ctx, out) := Dispatch(c, s.ctx, cmd, env);
      (Device(ctx, PendingOf(out, env)), out)
    case Choice(confirm, signOk) =>
      match s.pending
      case Idle => (s, Nothing)
      case OnEmail =>
        var (ctx, out) := Validate(c, s.ctx, confirm, signOk);
        (Device(ctx, Idle), out)
      case OnAddress(reply) =>
        (s.(pending := Idle), if confirm then PublicKey(reply) else Status(ConditionsNotSatisfied))
  }

  // ---- runs ----

  function After(c: Crypto, s: Device, es: seq<Event>): Device {
    if es == [] then s else Step(c, After(c, s, es[..|es| - 1]), es[|es| - 1]).0
  }

  /** The output of event i. */
  function Out(c: Crypto, s: Device, es: seq<Event>, i: nat): Output
    requires i < |es|
  {
    Step(c, After(c, s, es[..i]), es[i]).1
  }

  predicate Legal(c: Crypto, s: Device, es: seq<Event>) {
    forall i :: 0 <= i < |es| ==> Enabled(After(c, s, es[..i]), es[i])
  }

  lemma AfterStep(c: Crypto, s: Device, es: seq<Event>, i: nat)
    requires i < |es|
    ensures After(c, s, es[..i + 1]) == Step(c, After(c, s, es[..i]), es[i]).0
  {
    assert es[..i + 1][..i] == es[..i];
  }

  lemma {:induction false} AfterConcat(c: Crypto, s: Device, a: seq<Event>, b: seq<Event>)
    ensures After(c, s, a + b) == After(c, After(c, s, a), b)
  {
    hide Step;
    if b == [] {
      assert a + b == a;
    } else {
      AfterConcat(c, s, a, b[..|b| - 1]);
      assert (a + b)[..|a + b| - 1] == a + b[..|b| - 1];
    }
  }

  lemma OutConcat(c: Crypto, s: Device, a: seq<Event>, b: seq<Event>, i: nat)
    requires i < |b|
    ensures Out(c, s, a + b, |a| + i) == Out(c, After(c, s, a), b, i)
  {
    hide Step, After;
    AfterConcat(c, s, a, b[..i]);
    assert (a + b)[..|a| + i] == a + b[..i];
  }

  // ---- the commands that reach the context ----

  /** A SIGN_TX or SIGN_TOKEN_TX command that passes the dispatcher. */
  predicate Signing(e: Event) {
    && e.Apdu? && e.cmd.cla == CLA && (e.cmd.ins == SIGN_TX || e.cmd.ins == SIGN_TOKEN_TX)
    && SignP1P2Ok(e.cmd.p1, e.cmd.p2) && e.cmd.data != []
  }

  predicate IsToken(e: Event) {
    e.Apdu? && e.cmd.ins == SIGN_TOKEN_TX
  }

  predicate Opens(e: Event) {
    Signing(e) && e.cmd.p1 == P1_START
  }

  predicate OpensEmail(e: Event) {
    Opens(e) && !IsToken(e)
  }

  predicate Continues(e: Event) {
    Signing(e) && e.cmd.p1 != P1_START
  }

  /** A GET_PUBLIC_KEY command that passes the dispatcher. */
  predicate Closes(e: Event) {
    && e.Apdu? && e.cmd.cla == CLA && e.cmd.ins == GET_PUBLIC_KEY
    && e.cmd.p1 <= 1 && e.cmd.p2 == 0 && e.cmd.data != []
  }

  /** Commands answered without touching the context: constant replies and whatever the dispatcher refuses. */
  predicate Inert(e: Event) {
    e.Garbled? || (e.Apdu? && !Signing(e) && !Closes(e))
  }
}
