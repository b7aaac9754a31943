/**
 Which commands get which answer, in the numbers of the protocol. Each answer of the device is given with exactly
 the commands and states that lead to it, across the dispatcher, both handlers and the guard of the review.
 */
module StatusWords {
  import opened ByteString
  import opened Wire
  import opened WireTheorems
  import opened Screen
  import opened Session
  import opened Runs

  predicate Known(ins: byte) {
    ins == 0x03 || ins == 0x04 || ins == 0x05 || ins == 0x06 || ins == 0x07 || ins == 0x22
  }

  /** Which P1 and P2 a command may carry. */
  predicate ParametersOk(cmd: Command) {
    if cmd.ins == 0x05 then cmd.p1 <= 1 && cmd.p2 == 0
    else if cmd.ins == 0x06 || cmd.ins == 0x07 then
      (cmd.p1 == 0 && cmd.p2 == 0x80) || (1 <= cmd.p1 <= 16 && (cmd.p2 == 0 || cmd.p2 == 0x80))
    else cmd.p1 == 0 && cmd.p2 == 0
  }

  predicate NeedsData(cmd: Command) {
    cmd.ins != 0x03 && cmd.ins != 0x04
  }

  /** A command that reaches its handler. */
  predicate Passes(cmd: Command) {
    cmd.cla == 0xE0 && Known(cmd.ins) && ParametersOk(cmd) && (NeedsData(cmd) ==> cmd.data != [])
  }

  predicate AsksForKey(cmd: Command) {
    Passes(cmd) && cmd.ins == 0x05
  }

  predicate FirstChunk(cmd: Command) {
    Passes(cmd) && (cmd.ins == 0x06 || cmd.ins == 0x07) && cmd.p1 == 0
  }

  predicate LaterChunk(cmd: Command) {
    Passes(cmd) && (cmd.ins == 0x06 || cmd.ins == 0x07) && cmd.p1 != 0
  }

  /** The session in the context was opened by the same command. */
  predicate SameSession(ctx: Context, cmd: Command) {
    ctx.reqType == if cmd.ins == 0x07 then ConfirmTokenTransaction else ConfirmTransaction
  }

  /** A later chunk that is kept. */
  predicate Kept(ctx: Context, cmd: Command) {
    LaterChunk(cmd) && SameSession(ctx, cmd) && |ctx.raw| + |cmd.data| <= 2600
  }

  /** A kept chunk that is announced as the last one. */
  predicate Completes(ctx: Context, cmd: Command) {
    Kept(ctx, cmd) && cmd.p2 == 0
  }

  function Answer(c: Crypto, s: Device, cmd: Command, env: Env): Output {
    Step(c, s, Apdu(cmd, env)).1
  }

  /** The answers of the dispatcher itself, and of the loop to bytes that are no command. */
  lemma RefusalIff(c: Crypto, s: Device, cmd: Command, env: Env)
    ensures var out := Answer(c, s, cmd, env);
            && (out == Status(InvalidCla) <==> cmd.cla != 0xE0)
            && (out == Status(InvalidIns) <==> cmd.cla == 0xE0 && !Known(cmd.ins))
            && (out == Status(IncorrectP1P2) <==> cmd.cla == 0xE0 && Known(cmd.ins) && !ParametersOk(cmd))
            && (out.Info? <==> Passes(cmd) && !NeedsData(cmd)) && (out.Info? ==> out.ins == cmd.ins)
            && (out == Status(InvalidDynamicToken) <==> Passes(cmd) && cmd.ins == 0x22 && !env.tokenOk)
    ensures Step(c, s, Garbled) == (s, Status(WrongDataLength))
  {
    hide PathOk, PathOf, StatusOf, ScreenOf, Decode;
  }

  /** SWO_WRONG_DATA_LENGTH: no data, no path where one is due, or no room for a chunk. */
  lemma WrongLengthIff(c: Crypto, s: Device, cmd: Command, env: Env)
    ensures Answer(c, s, cmd, env) == Status(WrongDataLength) <==>
            || (cmd.cla == 0xE0 && Known(cmd.ins) && ParametersOk(cmd) && NeedsData(cmd) && cmd.data == [])
            || ((AsksForKey(cmd) || FirstChunk(cmd)) && !PathOk(cmd.data))
            || (LaterChunk(cmd) && SameSession(s.ctx, cmd) && |s.ctx.raw| + |cmd.data| > 2600)
  {
    hide PathOk, PathOf, StatusOf, ScreenOf, Decode;
  }

  /** SWO_SUCCESS: a chunk 0 with a path, a chunk with more to come, or a token that was taken. */
  lemma SuccessIff(c: Crypto, s: Device, cmd: Command, env: Env)
    ensures Answer(c, s, cmd, env) == Status(Success) <==>
            || (FirstChunk(cmd) && PathOk(cmd.data))
            || (Kept(s.ctx, cmd) && cmd.p2 == 0x80)
            || (Passes(cmd) && cmd.ins == 0x22 && env.tokenOk)
  {
    hide PathOk, PathOf, StatusOf, ScreenOf, Decode;
  }

  /** The answers to the chunk that completes a payload, and the refusal of a chunk of another session. */
  lemma PayloadIff(c: Crypto, s: Device, cmd: Command, env: Env)
    ensures var out, raw := Answer(c, s, cmd, env), s.ctx.raw + cmd.data;
            var hashed := Completes(s.ctx, cmd) && Accepted(raw) && env.fault.None?;
            && (out.EmailReview? <==> hashed && cmd.ins == 0x06)
            && (out.EmailReview? ==> ReadScreen(out.screen) == Some(Decode(raw)))
            && (out == Status(ConditionsNotSatisfied) <==>
                  (LaterChunk(cmd) && !SameSession(s.ctx, cmd)) || (hashed && cmd.ins == 0x07))
            && (out == Status(IncorrectData) <==>
                  || (Completes(s.ctx, cmd) && !hashed)
                  || (AsksForKey(cmd) && cmd.p1 == 1 && PathOk(cmd.data) && env.key.Key? && !env.key.addressOk))
  {
    hide PathOk, PathOf, StatusOf, ScreenOf, ReadScreen, Decode;
    if Accepted(s.ctx.raw + cmd.data) {
      ScreenReadsBack(Decode(s.ctx.raw + cmd.data));
    }
  }

  /** The answers to GET_PUBLIC_KEY; no command is answered by a signature. */
  lemma KeyIff(c: Crypto, s: Device, cmd: Command, env: Env)
    ensures var out := Answer(c, s, cmd, env);
            var derived := AsksForKey(cmd) && PathOk(cmd.data) && env.key.Key?;
            && (out.PublicKey? <==> derived && cmd.p1 == 0)
            && (out.PublicKey? ==> out.data == PackKey(env.key.pub, env.key.chain))
            && (out.AddressReview? <==> derived && cmd.p1 == 1 && env.key.addressOk)
            && (forall code :: out == Status(KeyError(code)) <==>
                  AsksForKey(cmd) && PathOk(cmd.data) && env.key == NoKey(code))
            && !out.Signed? && !out.Nothing? && out != Status(SecurityIssue)
  {
    hide PathOk, PathOf, StatusOf, ScreenOf, Decode, PackKey;
  }

  /** The context after a payload is complete: the two failures and the two kinds of session. */
  function Completed(c: Crypto, ctx: Context, token: bool, fault: Option<Digest>): Context {
    if !Accepted(ctx.raw) then ctx
    else if fault.Some? then ctx.(state := StateParsed, hash := fault.value)
    else ctx.(state := if token then StateNone else StateParsed, hash := c.sha256(ctx.raw))
  }

  /**
   What every command does to the context: GET_PUBLIC_KEY and a chunk 0 reset it to a path, a kept chunk adds its
   bytes, the last one has them processed, and nothing else touches it.
   */
  lemma ContextAfter(c: Crypto, s: Device, cmd: Command, env: Env)
    ensures var ctx := Step(c, s, Apdu(cmd, env)).0.ctx;
            var longer := s.ctx.(raw := s.ctx.raw + cmd.data);
            if AsksForKey(cmd) then ctx == Context(StateNone, ConfirmAddress, [], Zeros(32), PathOf(cmd.data))
            else if FirstChunk(cmd) then
              && SameSession(ctx, cmd)
              && ctx.state == StateNone && ctx.raw == [] && ctx.hash == Zeros(32) && ctx.path == PathOf(cmd.data)
            else if Completes(s.ctx, cmd) then ctx == Completed(c, longer, cmd.ins == 0x07, env.fault)
            else if Kept(s.ctx, cmd) then ctx == longer
            else ctx == s.ctx
  {
    hide PathOk, PathOf, StatusOf, ScreenOf, Decode;
  }
}
