/**
 From the host's email to the unpacked signature.
 */
module EndToEnd {
  import opened ByteString
  import opened Wire
  import opened WireTheorems
  import opened Screen
  import opened Session
  import opened Runs
  import opened Host
  import opened Firmware

  // ---- how a payload is cut does not matter ----

  predicate MoreChunk(e: Event, token: bool) {
    Continues(e) && IsToken(e) == token && e.cmd.p2 == P2_MORE
  }

  predicate LastChunk(e: Event, token: bool) {
    Continues(e) && IsToken(e) == token && e.cmd.p2 == P2_LAST
  }

  function DataOf(e: Event): Bytes {
    if e.Apdu? then e.cmd.data else []
  }

  /** The data of some commands, put together. */
  function Carried(es: seq<Event>): Bytes {
    if es == [] then [] else Carried(es[..|es| - 1]) + DataOf(es[|es| - 1])
  }

  /** What the last chunk does once all the bytes are there. */
  function Finish(c: Crypto, ctx: Context, fault: Option<Digest>): (Device, Output) {
    var (ctx', out) := ProcessThenReview(c, ctx, fault);
    (Device(ctx', if out.EmailReview? then OnEmail else Idle), out)
  }

  lemma ChunkIsCommand(e: Event, token: bool)
    requires MoreChunk(e, token) || LastChunk(e, token)
    ensures e.Apdu? && DataOf(e) == e.cmd.data && e.cmd.data != []
  {
  }

  lemma MoreStep(c: Crypto, s: Device, e: Event, token: bool)
    requires MoreChunk(e, token) && s.ctx.reqType == ReqOf(token) && |s.ctx.raw| + |e.cmd.data| <= MAX_TX_LEN
    ensures Step(c, s, e) == (Device(s.ctx.(raw := s.ctx.raw + e.cmd.data), Idle), Status(Success))
  {
    hide ProcessThenReview;
  }

  lemma LastStep(c: Crypto, s: Device, e: Event, token: bool)
    requires LastChunk(e, token) && s.ctx.reqType == ReqOf(token) && |s.ctx.raw| + |e.cmd.data| <= MAX_TX_LEN
    ensures Step(c, s, e) == Finish(c, s.ctx.(raw := s.ctx.raw + e.cmd.data), e.env.fault)
  {
    hide StatusOf, ScreenOf, Decode;
  }

  lemma FullStep(c: Crypto, s: Device, e: Event, token: bool)
    requires MoreChunk(e, token) || LastChunk(e, token)
    requires s.ctx.reqType == ReqOf(token) && |s.ctx.raw| + |e.cmd.data| > MAX_TX_LEN
    ensures Step(c, s, e) == (Device(s.ctx, Idle), Status(WrongDataLength))
  {
    hide ProcessThenReview;
  }

  /** Chunks announced as not last only pile up. */
  lemma {:induction false} Pile(c: Crypto, s: Device, es: seq<Event>, token: bool)
    requires s.pending.Idle? && s.ctx.reqType == ReqOf(token) && |s.ctx.raw| + |Carried(es)| <= MAX_TX_LEN
    requires forall k :: 0 <= k < |es| ==> MoreChunk(es[k], token)
    ensures After(c, s, es) == Device(s.ctx.(raw := s.ctx.raw + Carried(es)), Idle)
    ensures Legal(c, s, es)
    ensures forall k :: 0 <= k < |es| ==> Out(c, s, es, k) == Status(Success)
  {
    hide Step, MoreChunk;
    if es == [] {
      assert s.ctx.raw + Carried(es) == s.ctx.raw;
    } else {
      var front, e := es[..|es| - 1], es[|es| - 1];
      assert front + [e] == es;
      Pile(c, s, front, token);
      ChunkIsCommand(e, token);
      LegalSnoc(c, s, front, e);
      MoreStep(c, After(c, s, front), e, token);
      assert s.ctx.raw + Carried(es) == s.ctx.raw + Carried(front) + e.cmd.data;
      forall k | 0 <= k < |es|
        ensures Out(c, s, es, k) == Status(Success)
      {
        if k < |front| {
          assert Out(c, s, front, k) == Status(Success);
          assert front[..k] == es[..k];
        }
      }
    }
  }

  /** Chunks that pile up and one event more. */
  lemma PileThen(c: Crypto, s: Device, es: seq<Event>, last: Event, token: bool)
    requires s.pending.Idle? && s.ctx.reqType == ReqOf(token) && |s.ctx.raw| + |Carried(es)| <= MAX_TX_LEN
    requires forall k :: 0 <= k < |es| ==> MoreChunk(es[k], token)
    requires MoreChunk(last, token) || LastChunk(last, token)
    ensures var t, all := Device(s.ctx.(raw := s.ctx.raw + Carried(es)), Idle), es + [last];
            && Legal(c, s, all)
            && (After(c, s, all), Out(c, s, all, |es|)) == Step(c, t, last)
            && forall k :: 0 <= k < |es| ==> Out(c, s, all, k) == Status(Success)
  {
    hide Step, MoreChunk, LastChunk;
    var all := es + [last];
    assert all[..|es|] == es && all[|es|] == last;
    ChunkIsCommand(last, token);
    Pile(c, s, es, token);
    LegalSnoc(c, s, es, last);
    forall k | 0 <= k < |es|
      ensures Out(c, s, all, k) == Status(Success)
    {
      assert Out(c, s, es, k) == Status(Success);
      assert all[..k] == es[..k];
    }
  }

  lemma CarriedSnoc(es: seq<Event>, e: Event)
    ensures Carried(es + [e]) == Carried(es) + DataOf(e)
  {
    assert (es + [e])[..|es|] == es;
  }

  /** A whole cut, last chunk included, does what one arrival of all the bytes would do. */
  lemma CutThenLast(c: Crypto, s: Device, es: seq<Event>, last: Event, token: bool)
    requires s.pending.Idle? && s.ctx.reqType == ReqOf(token) && LastChunk(last, token)
    requires forall k :: 0 <= k < |es| ==> MoreChunk(es[k], token)
    requires |s.ctx.raw| + |Carried(es + [last])| <= MAX_TX_LEN
    ensures var all := es + [last];
            && Legal(c, s, all)
            && (After(c, s, all), Out(c, s, all, |es|))
               == Finish(c, s.ctx.(raw := s.ctx.raw + Carried(all)), last.env.fault)
            && forall k :: 0 <= k < |es| ==> Out(c, s, all, k) == Status(Success)
  {
    hide Step, MoreChunk, LastChunk, Finish, Carried, After, Out, Legal;
    ChunkIsCommand(last, token);
    CarriedSnoc(es, last);
    PileThen(c, s, es, last, token);
    var t := Device(s.ctx.(raw := s.ctx.raw + Carried(es)), Idle);
    LastStep(c, t, last, token);
    assert s.ctx.raw + Carried(es + [last]) == t.ctx.raw + last.cmd.data;
  }

  /** Any two cuts of the same bytes end in the same context and the same response. */
  lemma ChunkingIndependence(c: Crypto, s: Device, token: bool, es: seq<Event>, x: Event, fs: seq<Event>, y: Event)
    requires s.pending.Idle? && s.ctx.reqType == ReqOf(token) && LastChunk(x, token) && LastChunk(y, token)
    requires forall k :: 0 <= k < |es| ==> MoreChunk(es[k], token)
    requires forall k :: 0 <= k < |fs| ==> MoreChunk(fs[k], token)
    requires Carried(es + [x]) == Carried(fs + [y]) && x.env.fault == y.env.fault
    requires |s.ctx.raw| + |Carried(es + [x])| <= MAX_TX_LEN
    ensures After(c, s, es + [x]) == After(c, s, fs + [y])
    ensures Out(c, s, es + [x], |es|) == Out(c, s, fs + [y], |fs|)
  {
    hide Step, MoreChunk, LastChunk, Finish, After, Out;
    CutThenLast(c, s, es, x, token);
    CutThenLast(c, s, fs, y, token);
  }

  // ---- the host's own cut ----

  lemma CarriedNothing()
    ensures Carried([]) == [] && Flatten([]) == []
  {
  }

  lemma {:induction false} ChunkEventsCarry(token: bool, cs: seq<Bytes>, n: nat, env: Env)
    requires n <= |cs| && n < 0x100
    ensures Carried(ChunkEvents(token, cs, n, env)) == Flatten(cs[..n])
  {
    hide Carried, Flatten;
    if n == 0 {
      CarriedNothing();
      assert cs[..0] == [];
    } else {
      ChunkEventsCarry(token, cs, n - 1, env);
      CarriedSnoc(ChunkEvents(token, cs, n - 1, env), Apdu(SignCommand(token, n, n < |cs|, cs[n - 1]), env));
      FlattenSnoc(cs[..n - 1], cs[n - 1]);
      assert cs[..n - 1] + [cs[n - 1]] == cs[..n];
    }
  }

  /** The context in which chunk 0 leaves the device. */
  function Opened(token: bool, p: seq<u32>): Context
    requires ValidPath(p)
  {
    WIPED.(reqType := ReqOf(token), path := Stored(p))
  }

  /** Chunk 0 with a packed path starts afresh, whatever the device was doing before. */
  lemma OpenStep(c: Crypto, s: Device, token: bool, p: seq<u32>, env: Env)
    requires ValidPath(p)
    ensures Step(c, s, Apdu(SignCommand(token, P1_START, true, PackPath(p)), env))
         == (Device(Opened(token, p), Idle), Status(Success))
  {
    PackedPathIsStored(p, []);
    hide Words, PathOf, PathOk, Stored;
    assert PackPath(p) + [] == PackPath(p);
  }

  /** A payload that parses and is hashed: an email session opens its review, any other is refused and reset. */
  lemma FinishAccepted(c: Crypto, ctx: Context)
    requires Accepted(ctx.raw)
    ensures var hashed := ctx.(hash := c.sha256(ctx.raw));
            Finish(c, ctx, None)
            == if ctx.reqType == ConfirmTransaction
               then (Device(hashed.(state := StateParsed), OnEmail), EmailReview(ScreenOf(Decode(ctx.raw))))
               else (Device(hashed.(state := StateNone), Idle), Status(ConditionsNotSatisfied))
  {
    hide StatusOf, ScreenOf, Decode;
  }

  /** One that does not parse leaves the context alone; one that is not hashed leaves it parsed, with no review. */
  lemma FinishRefused(c: Crypto, ctx: Context, fault: Option<Digest>)
    requires !Accepted(ctx.raw) || fault.Some?
    ensures Finish(c, ctx, fault).1 == Status(IncorrectData)
    ensures Finish(c, ctx, fault).0
         == Device(if !Accepted(ctx.raw) then ctx else ctx.(state := StateParsed, hash := fault.value), Idle)
  {
    hide StatusOf;
  }

  /** Runs that follow one another are a run. */
  lemma Join(c: Crypto, s: Device, a: seq<Event>, b: seq<Event>)
    requires Legal(c, s, a) && Legal(c, After(c, s, a), b)
    ensures Legal(c, s, a + b) && After(c, s, a + b) == After(c, After(c, s, a), b)
  {
    hide Step, Enabled, After;
    AfterConcat(c, s, a, b);
    var all := a + b;
    forall i | 0 <= i < |all|
      ensures Enabled(After(c, s, all[..i]), all[i])
    {
      if i < |a| {
        assert all[..i] == a[..i];
      } else {
        AfterConcat(c, s, a, b[..i - |a|]);
        assert all[..i] == a + b[..i - |a|];
      }
    }
  }

  lemma ChunkEventsKind(token: bool, cs: seq<Bytes>, n: nat, env: Env)
    requires 1 <= n <= |cs| && n <= P1_MAX && forall k :: 0 <= k < |cs| ==> cs[k] != []
    ensures var es := ChunkEvents(token, cs, n, env);
            && (forall k :: 0 <= k < n - 1 ==> MoreChunk(es[k], token))
            && es[n - 1] == Apdu(SignCommand(token, n, n < |cs|, cs[n - 1]), env)
            && if n == |cs| then LastChunk(es[n - 1], token) else MoreChunk(es[n - 1], token)
  {
  }

  /** Where the host's commands lead, and the output of the last one. */
  function Outcome(c: Crypto, token: bool, p: seq<u32>, payload: Bytes, fault: Option<Digest>): (Device, Output)
    requires ValidPath(p)
  {
    if payload == [] then (Device(Opened(token, p), Idle), Status(Success))
    else if |payload| <= MAX_TX_LEN then Finish(c, Opened(token, p).(raw := payload), fault)
    else (Device(Opened(token, p).(raw := payload[..(MAX_CHUNKS - 1) * MAX_APDU_LEN]), Idle), Status(WrongDataLength))
  }

  lemma CutRun(c: Crypto, t: Device, es: seq<Event>, token: bool)
    requires t.pending.Idle? && t.ctx.reqType == ReqOf(token) && t.ctx.raw == []
    requires es != [] && LastChunk(es[|es| - 1], token) && forall k :: 0 <= k < |es| - 1 ==> MoreChunk(es[k], token)
    requires |Carried(es)| <= MAX_TX_LEN
    ensures Legal(c, t, es)
    ensures (After(c, t, es), Out(c, t, es, |es| - 1)) == Finish(c, t.ctx.(raw := Carried(es)), es[|es| - 1].env.fault)
    ensures forall k :: 0 <= k < |es| - 1 ==> Out(c, t, es, k) == Status(Success)
  {
    hide Step, After, Out, Legal, Finish, Carried, MoreChunk, LastChunk;
    var front, last := es[..|es| - 1], es[|es| - 1];
    assert front + [last] == es;
    assert t.ctx.raw + Carried(es) == Carried(es);
    CutThenLast(c, t, front, last, token);
  }

  /** The chunks of a payload that fits. */
  lemma FittingRun(c: Crypto, t: Device, token: bool, payload: Bytes, env: Env)
    requires t.pending.Idle? && t.ctx.reqType == ReqOf(token) && t.ctx.raw == []
    requires 1 <= |payload| <= MAX_TX_LEN
    ensures var cs := SplitMessage(payload, MAX_APDU_LEN);
            && 1 <= |cs| <= MAX_CHUNKS
            && var es := ChunkEvents(token, cs, |cs|, env);
            && Legal(c, t, es)
            && (After(c, t, es), Out(c, t, es, |es| - 1)) == Finish(c, t.ctx.(raw := payload), env.fault)
            && forall k :: 0 <= k < |es| - 1 ==> Out(c, t, es, k) == Status(Success)
  {
    hide Step, After, Out, Legal, Finish, Flatten, Carried, MoreChunk, LastChunk;
    SplitFitsP1(payload);
    SplitIsWhole(payload, MAX_APDU_LEN);
    var cs := SplitMessage(payload, MAX_APDU_LEN);
    ChunkEventsKind(token, cs, |cs|, env);
    ChunkEventsCarry(token, cs, |cs|, env);
    assert cs[..|cs|] == cs;
    CutRun(c, t, ChunkEvents(token, cs, |cs|, env), token);
  }

  /** The first chunks of a payload that does not fit: ten of them fill the buffer, and the next is refused. */
  lemma OversizedChunks(payload: Bytes)
    requires |payload| > MAX_TX_LEN
    ensures var cs := SplitMessage(payload, MAX_APDU_LEN);
            && |cs| >= MAX_CHUNKS
            && Flatten(cs[..MAX_CHUNKS - 1]) == payload[..(MAX_CHUNKS - 1) * MAX_APDU_LEN]
            && |Flatten(cs[..MAX_CHUNKS - 1])| + |cs[MAX_CHUNKS - 1]| > MAX_TX_LEN
  {
    hide Flatten, SplitMessage;
    var cs := SplitMessage(payload, MAX_APDU_LEN);
    SplitCount(payload, MAX_APDU_LEN);
    SplitFront(payload, MAX_APDU_LEN, MAX_CHUNKS - 1, (MAX_CHUNKS - 1) * MAX_APDU_LEN);
    SplitFront(payload, MAX_APDU_LEN, MAX_CHUNKS, MAX_CHUNKS * MAX_APDU_LEN);
    FlattenSnoc(cs[..MAX_CHUNKS - 1], cs[MAX_CHUNKS - 1]);
    assert cs[..MAX_CHUNKS - 1] + [cs[MAX_CHUNKS - 1]] == cs[..MAX_CHUNKS];
  }

  lemma OversizedRun(c: Crypto, t: Device, token: bool, payload: Bytes, env: Env)
    requires t.pending.Idle? && t.ctx.reqType == ReqOf(token) && t.ctx.raw == []
    requires |payload| > MAX_TX_LEN
    ensures var cs := SplitMessage(payload, MAX_APDU_LEN);
            && |cs| >= MAX_CHUNKS
            && var es := ChunkEvents(token, cs, MAX_CHUNKS, env);
            && Legal(c, t, es)
            && After(c, t, es) == Device(t.ctx.(raw := payload[..(MAX_CHUNKS - 1) * MAX_APDU_LEN]), Idle)
            && Out(c, t, es, |es| - 1) == Status(WrongDataLength)
            && forall k :: 0 <= k < |es| - 1 ==> Out(c, t, es, k) == Status(Success)
  {
    hide Step, After, Out, Legal, Flatten, Carried, MoreChunk, LastChunk, SplitMessage;
    OversizedChunks(payload);
    var cs, n := SplitMessage(payload, MAX_APDU_LEN), MAX_CHUNKS - 1;
    ChunkEventsKind(token, cs, n + 1, env);
    ChunkEventsCarry(token, cs, n, env);
    var front, es := ChunkEvents(token, cs, n, env), ChunkEvents(token, cs, n + 1, env);
    var last := es[n];
    assert es == front + [last];
    assert forall k :: 0 <= k < n ==> front[k] == es[k];
    PileThen(c, t, front, last, token);
    var u := Device(t.ctx.(raw := t.ctx.raw + Carried(front)), Idle);
    FullStep(c, u, last, token);
    assert t.ctx.raw + Carried(front) == Carried(front);
  }

  /** The host's commands, from any idle state: each but the last is acknowledged, and the last has the outcome. */
  lemma HostRun(c: Crypto, s: Device, token: bool, p: seq<u32>, payload: Bytes, env: Env)
    requires s.pending.Idle? && ValidPath(p)
    ensures var es := HostEvents(token, p, payload, env);
            && |es| >= 1 && Legal(c, s, es)
            && (After(c, s, es), Out(c, s, es, |es| - 1)) == Outcome(c, token, p, payload, env.fault)
            && forall k :: 0 <= k < |es| - 1 ==> Out(c, s, es, k) == Status(Success)
  {
    hide Step, Stored, PackPath, After, Out, Legal, Finish, SplitMessage;
    var es := HostEvents(token, p, payload, env);
    var open, rest := es[0], es[1..];
    OneEvent(c, s, open);
    FirstOut(c, s, es);
    OpenStep(c, s, token, p, env);
    var t := Device(Opened(token, p), Idle);
    assert es == [open] + rest;
    if payload == [] {
      assert es == [open];
    } else {
      if |payload| <= MAX_TX_LEN {
        FittingRun(c, t, token, payload, env);
      } else {
        OversizedRun(c, t, token, payload, env);
      }
      Join(c, s, [open], rest);
      OutConcat(c, s, [open], rest, |rest| - 1);
      forall k | 1 <= k < |es| - 1
        ensures Out(c, s, es, k) == Status(Success)
      {
        OutConcat(c, s, [open], rest, k - 1);
      }
    }
  }

  lemma OutPrefix(c: Crypto, s: Device, a: seq<Event>, b: seq<Event>, k: nat)
    requires k < |a|
    ensures Out(c, s, a + b, k) == Out(c, s, a, k)
  {
    hide Step, After;
    assert (a + b)[..k] == a[..k];
  }

  lemma PayloadNotEmpty(h: HostEmail)
    requires Encodable(h)
    ensures |Payload(h)| >= 1
  {
  }

  /**
   End to end: for every printable email within the cap, from every idle state and whatever happened before,
   the host's chunk sequence is acknowledged, the device shows that email, and after approval the host
   unpacks the signature, under the given path, of the digest of what it serialized.
   */
  lemma EndToEndSignature(c: Crypto, s: Device, p: seq<u32>, h: HostEmail, env: Env)
    requires s.pending.Idle? && ValidPath(p) && env.fault.None?
    requires Encodable(h) && Renderable(h) && |Payload(h)| <= MAX_TX_LEN
    ensures var es := HostEvents(false, p, Payload(h), env);
            var run := es + [Choice(true, true)];
            && |es| >= 1 && Legal(c, s, run)
            && (forall k :: 0 <= k < |es| - 1 ==> Out(c, s, run, k) == Status(Success))
            && Out(c, s, run, |es| - 1).EmailReview?
            && ReadScreen(Out(c, s, run, |es| - 1).screen) == Some(EmailFor(h))
            && Out(c, s, run, |es|).Signed?
            && UnpackSignature(Out(c, s, run, |es|).data)
               == Some((64, c.sign(Stored(p), c.sha256(Payload(h))), 0))
  {
    hide Step, Stored, PackPath, StatusOf, Decode, ScreenOf, ReadScreen, After, Out, Legal, Payload, EmailFor,
         Renderable, Encodable, UnpackSignature, PackSignature, HostEvents, Finish;
    var payload := Payload(h);
    HostDeviceAgreement(h);
    ScreenReadsBack(EmailFor(h));
    PayloadNotEmpty(h);
    var es := HostEvents(false, p, payload, env);
    HostRun(c, s, false, p, payload, env);
    FinishAccepted(c, Opened(false, p).(raw := payload));
    var t := After(c, s, es);
    var choice := Choice(true, true);
    Approve(c, t);
    OneEvent(c, t, choice);
    Join(c, s, es, [choice]);
    OutConcat(c, s, es, [choice], 0);
    FirstOut(c, t, [choice]);
    UnpackPacked(c.sign(Stored(p), c.sha256(payload)), Zeros(PUBKEY_LEN), Zeros(CHAINCODE_LEN));
    forall k | 0 <= k < |es|
      ensures Out(c, s, es + [choice], k) == Out(c, s, es, k)
    {
      OutPrefix(c, s, es, [choice], k);
    }
  }

  // ---- the exchange itself ----

  lemma HostEventAt(token: bool, p: seq<u32>, payload: Bytes, env: Env)
    requires ValidPath(p)
    ensures var es, cs := HostEvents(token, p, payload, env), SplitMessage(payload, MAX_APDU_LEN);
            && |es| == 1 + (if |cs| < MAX_CHUNKS then |cs| else MAX_CHUNKS)
            && es[0] == Apdu(SignCommand(token, P1_START, true, PackPath(p)), env)
            && forall k :: 1 <= k < |es| ==> es[k] == Apdu(SignCommand(token, k, k < |cs|, cs[k - 1]), env)
  {
    hide PackPath, SplitMessage;
  }

  /** One command of a run that the device started in s is answered as the run says. */
  method Exchange(app: App, cmd: Command, env: Env, ghost before: seq<Event>, ghost s: Device, ghost es: seq<Event>,
                  ghost k: nat)
    returns (out: Output)
    requires app.Valid() && app.pending.Idle? && s == After(app.crypto, START, before)
    requires k < |es| && es[k] == Apdu(cmd, env) && app.history == before + es[..k]
    modifies app.Repr()
    ensures app.Valid() && app.history == before + es[..k + 1]
    ensures out == Out(app.crypto, s, es, k) && (out.Status? ==> app.pending.Idle?)
  {
    hide Step, After, Legal;
    AfterConcat(app.crypto, START, before, es[..k]);
    out := app.Dispatcher(cmd, env);
    assert es[..k] + [es[k]] == es[..k + 1];
  }

  /** A chunk before the last is refused exactly when the payload exceeds what eleven chunks carry. */
  lemma TooManyChunks(c: Crypto, token: bool, p: seq<u32>, payload: Bytes, fault: Option<Digest>)
    requires ValidPath(p)
    ensures var n := |SplitMessage(payload, MAX_APDU_LEN)|;
            && (n > MAX_CHUNKS <==> |payload| > MAX_CHUNKS * MAX_APDU_LEN)
            && (n > MAX_CHUNKS ==> Outcome(c, token, p, payload, fault).1 == Status(WrongDataLength))
            && (n == 0 <==> payload == [])
            && (n == 0 ==> Outcome(c, token, p, payload, fault).1 == Status(Success))
  {
    hide SplitMessage, Finish, Stored;
    if payload != [] {
      SplitCount(payload, MAX_APDU_LEN);
    }
  }

  /** A device that has received a run is where the run leads. */
  lemma Arrived(app: App, before: seq<Event>, s: Device, es: seq<Event>)
    requires app.Valid() && s == After(app.crypto, START, before) && app.history == before + es
    ensures Device(app.Ctx(), app.pending) == After(app.crypto, s, es)
  {
    hide After, Step;
    AfterConcat(app.crypto, START, before, es);
  }

  /** The loop over all chunks but the last; it raises exactly when there are more chunks than the device takes. */
  method SendFront(app: App, token: bool, messages: seq<Bytes>, env: Env,
                   ghost before: seq<Event>, ghost s: Device, ghost es: seq<Event>)
    returns (raised: bool, out: Output)
    requires app.Valid() && app.pending.Idle? && s == After(app.crypto, START, before)
    requires messages != [] && |es| == 1 + (if |messages| < MAX_CHUNKS then |messages| else MAX_CHUNKS)
    requires forall k :: 1 <= k < |es| ==> es[k] == Apdu(SignCommand(token, k, k < |messages|, messages[k - 1]), env)
    requires forall k :: 0 <= k < |es| - 1 ==> Out(app.crypto, s, es, k) == Status(Success)
    requires |messages| > MAX_CHUNKS ==> Out(app.crypto, s, es, |es| - 1) == Status(WrongDataLength)
    requires app.history == before + es[..1]
    modifies app.Repr()
    ensures app.Valid() && app.pending.Idle? && (raised <==> |messages| > MAX_CHUNKS)
    ensures app.history == before + es[..if raised then |es| else |messages|]
    ensures raised ==> out == Out(app.crypto, s, es, |es| - 1)
  {
    hide Step, After, Out, App.Valid, App.Repr;
    out := Status(Success);
    var idx := P1_START + 1;
    while idx < |messages|
      invariant 1 <= idx < |es| && idx <= |messages| && app.Valid() && app.pending.Idle?
      invariant app.history == before + es[..idx]
    {
      out := Exchange(app, SignCommand(token, idx, true, messages[idx - 1]), env, before, s, es, idx);
      if out != Status(Success) {
        return true, out;
      }
      idx := idx + 1;
    }
    return false, out;
  }

  /**
   _sign_transaction on a live device: chunk 0, then one exchange per chunk with P1 counting up. The device
   receives exactly `HostEvents`. An exchange raises exactly for the empty payload, which has no last chunk, and
   for one so long that a chunk before its last is refused.
   */
  method SignTransaction(app: App, token: bool, p: seq<u32>, payload: Bytes, env: Env)
    returns (raised: bool, out: Output)
    requires app.Valid() && app.pending.Idle? && ValidPath(p)
    modifies app.Repr()
    ensures app.Valid() && app.history == old(app.history) + HostEvents(token, p, payload, env)
    ensures raised <==> payload == [] || |payload| > MAX_CHUNKS * MAX_APDU_LEN
    ensures (Device(app.Ctx(), app.pending), out) == Outcome(app.crypto, token, p, payload, env.fault)
  {
    hide Step, After, Out, Legal, PackPath, HostEvents, Outcome, SplitMessage, App.Ctx;
    ghost var before, s, es := app.history, Device(app.Ctx(), Idle), HostEvents(token, p, payload, env);
    assert s == After(app.crypto, START, before);
    hide App.Valid, App.Shape, App.Repr;
    var messages := SplitMessage(payload, MAX_APDU_LEN);
    HostRun(app.crypto, s, token, p, payload, env);
    HostEventAt(token, p, payload, env);
    TooManyChunks(app.crypto, token, p, payload, env.fault);
    assert before + es[..0] == before && es[..|es|] == es;
    out := Exchange(app, SignCommand(token, P1_START, true, PackPath(p)), env, before, s, es, 0);
    if out != Status(Success) || messages == [] {
      Arrived(app, before, s, es);
      return true, out;
    }
    raised, out := SendFront(app, token, messages, env, before, s, es);
    if !raised {
      var last := |messages|;
      out := Exchange(app, SignCommand(token, last, false, messages[last - 1]), env, before, s, es, last);
    }
    Arrived(app, before, s, es);
  }

  /** The outcome for an email: its review, or a refusal for its length or its contents. */
  lemma OutcomeOf(c: Crypto, p: seq<u32>, h: HostEmail, fault: Option<Digest>)
    requires ValidPath(p) && Encodable(h)
    ensures var r := Outcome(c, false, p, Payload(h), fault);
            if |Payload(h)| > MAX_TX_LEN then r.1 == Status(WrongDataLength) && r.0.pending == Idle
            else if !Renderable(h) || fault.Some? then r.1 == Status(IncorrectData) && r.0.pending == Idle
            else
              && r.1 == EmailReview(ScreenOf(EmailFor(h))) && r.0.pending == OnEmail
              && r.0.ctx.path == Stored(p) && r.0.ctx.hash == c.sha256(Payload(h))
  {
    hide Payload, EmailFor, Renderable, Encodable, Stored, ScreenOf, StatusOf, Decode, Finish;
    HostDeviceAgreement(h);
    PayloadNotEmpty(h);
    var ctx := Opened(false, p).(raw := Payload(h));
    if Accepted(ctx.raw) && fault.None? {
      FinishAccepted(c, ctx);
    } else {
      FinishRefused(c, ctx, fault);
    }
  }

  /** The three answers to an email review. */
  lemma AnswerStep(c: Crypto, t: Device, confirm: bool, signOk: bool)
    requires t.pending.OnEmail?
    ensures Step(c, t, Choice(confirm, signOk))
         == if !confirm then (Device(t.ctx.(state := StateNone), Idle), Status(ConditionsNotSatisfied))
            else if !signOk then (Device(t.ctx.(state := StateNone), Idle), Status(SecurityIssue))
            else (Device(t.ctx.(state := StateApproved), Idle), Signed(PackSignature(c.sign(t.ctx.path, t.ctx.hash))))
  {
    hide PackSignature;
  }

  /**
   A whole session on a live device, from the email to what the host unpacks. The email is shown exactly when it
   is printable, fits the cap and its hash is computed, and whoever reads the screen by its tags reads that email. A
   refusal, a failing signing call and an approval each have their reply; a signature is unpacked for the last one
   only, and it is that of the digest of what the host serialized.
   */
  method SignEmail(app: App, p: seq<u32>, h: HostEmail, env: Env, confirm: bool, signOk: bool)
    returns (shown: Output, reply: Output, signature: Option<(byte, Bytes, nat)>)
    requires app.Valid() && app.pending.Idle? && ValidPath(p) && Encodable(h)
    modifies app.Repr()
    ensures app.Valid() && app.pending.Idle?
    ensures app.history == old(app.history) + HostEvents(false, p, Payload(h), env)
                           + if shown.EmailReview? then [Choice(confirm, signOk)] else []
    ensures if |Payload(h)| > MAX_TX_LEN then shown == Status(WrongDataLength)
            else if !Renderable(h) || env.fault.Some? then shown == Status(IncorrectData)
            else shown.EmailReview? && ReadScreen(shown.screen) == Some(EmailFor(h))
    ensures if !shown.EmailReview? then reply == shown && signature.None?
            else if !confirm then reply == Status(ConditionsNotSatisfied) && signature.None? && app.state == StateNone
            else if !signOk then reply == Status(SecurityIssue) && signature.None? && app.state == StateNone
            else
              && reply.Signed? && app.state == StateApproved
              && signature == Some((64, app.crypto.sign(Stored(p), app.crypto.sha256(Payload(h))), 0))
  {
    hide Step, After, Legal, PackPath, HostEvents, Outcome, Payload, EmailFor, Renderable, Encodable, Stored, ScreenOf,
         ReadScreen, UnpackSignature, PackSignature;
    signature := None;
    OutcomeOf(app.crypto, p, h, env.fault);
    ScreenReadsBack(EmailFor(h));
    var _, last := SignTransaction(app, false, p, Payload(h), env);
    shown, reply := last, last;
    if shown.EmailReview? {
      ghost var t := Device(app.Ctx(), app.pending);
      AnswerStep(app.crypto, t, confirm, signOk);
      reply := app.Answer(confirm, signOk);
      if reply.Signed? {
        UnpackPacked(app.crypto.sign(Stored(p), app.crypto.sha256(Payload(h))), Zeros(PUBKEY_LEN), Zeros(CHAINCODE_LEN));
        signature := UnpackSignature(reply.data);
      }
    }
  }
}
