/**
 What holds of every run of the device: which reviews open, what is signed, and what is not.
 */
module Runs {
  import opened ByteString
  import opened Wire
  import opened WireTheorems
  import opened Screen
  import opened Session

  // ---- the accumulated bytes ----

  function Flatten(chunks: seq<Bytes>): Bytes {
    if chunks == [] then [] else Flatten(chunks[..|chunks| - 1]) + chunks[|chunks| - 1]
  }

  /** The signing session that a history leaves open: its chunk 0 and the chunks it kept since. */
  datatype Journal = Closed | Open(token: bool, start: Bytes, chunks: seq<Bytes>)

  function Record(j: Journal, e: Event): Journal {
    if Opens(e) then Open(IsToken(e), e.cmd.data, [])
    else if Closes(e) then Closed
    else if Continues(e) && j.Open? && j.token == IsToken(e) && |Flatten(j.chunks)| + |e.cmd.data| <= MAX_TX_LEN
    then j.(chunks := j.chunks + [e.cmd.data])
    else j
  }

  function JournalOf(es: seq<Event>): Journal {
    if es == [] then Closed else Record(JournalOf(es[..|es| - 1]), es[|es| - 1])
  }

  /** The context holds exactly the session of the history. */
  predicate Matches(ctx: Context, j: Journal) {
    match j
    case Closed => ctx.reqType == ConfirmAddress && ctx.raw == []
    case Open(token, start, chunks) =>
      && ctx.reqType == ReqOf(token) && ctx.path == PathOf(start)
      && ctx.raw == Flatten(chunks) && |ctx.raw| <= MAX_TX_LEN
  }

  lemma FlattenSnoc(cs: seq<Bytes>, d: Bytes)
    ensures Flatten(cs + [d]) == Flatten(cs) + d
  {
    assert (cs + [d])[..|cs|] == cs;
  }

  lemma FlattenNothing()
    ensures Flatten([]) == []
  {
  }

  lemma StepMatches(c: Crypto, s: Device, j: Journal, e: Event)
    requires Matches(s.ctx, j)
    ensures Matches(Step(c, s, e).0.ctx, Record(j, e))
  {
    hide ScreenOf, StatusOf, PathOf, Decode, PathOk, Flatten;
    if j.Open? && Continues(e) {
      FlattenSnoc(j.chunks, e.cmd.data);
    } else if Opens(e) {
      FlattenNothing();
    }
  }

  lemma StartMatches()
    ensures Matches(START.ctx, Closed)
  {
  }

  /** After any events the accumulated bytes are the kept chunks in order, at most 2600, under the path of chunk 0. */
  lemma {:induction false} AccumulatorInvariant(c: Crypto, es: seq<Event>)
    ensures Matches(After(c, START, es).ctx, JournalOf(es))
  {
    hide Step, Matches, Record;
    if es == [] {
      StartMatches();
    } else {
      var front := es[..|es| - 1];
      AccumulatorInvariant(c, front);
      StepMatches(c, After(c, START, front), JournalOf(front), es[|es| - 1]);
    }
  }

  /** A refused chunk changes nothing. */
  lemma RefusedChunkKeepsContext(c: Crypto, ctx: Context, e: Event)
    requires Continues(e)
    requires ctx.reqType != ReqOf(IsToken(e)) || |ctx.raw| + |e.cmd.data| > MAX_TX_LEN
    ensures Dispatch(c, ctx, e.cmd, e.env).0 == ctx
    ensures Dispatch(c, ctx, e.cmd, e.env).1
         == Status(if ctx.reqType != ReqOf(IsToken(e)) then ConditionsNotSatisfied else WrongDataLength)
  {
  }

  // ---- pending reviews ----

  /** A pending email review is on an accepted payload and on its digest. */
  predicate ReviewInv(c: Crypto, s: Device) {
    s.pending.OnEmail? ==>
      && s.ctx.reqType == ConfirmTransaction && s.ctx.state == StateParsed
      && Accepted(s.ctx.raw) && s.ctx.hash == c.sha256(s.ctx.raw)
  }

  lemma ReviewStep(c: Crypto, s: Device, e: Event)
    requires Enabled(s, e)
    ensures ReviewInv(c, Step(c, s, e).0)
    ensures Step(c, s, e).1.EmailReview? <==> Step(c, s, e).0.pending.OnEmail?
    ensures Step(c, s, e).1.EmailReview? ==>
              Step(c, s, e).1 == EmailReview(ScreenOf(Decode(Step(c, s, e).0.ctx.raw)))
    ensures Step(c, s, e).1.Signed? ==> e == Choice(true, true) && s.pending.OnEmail?
  {
    hide ScreenOf, StatusOf, PathOf, PathOk, Decode;
  }

  /** The state before event i of a legal run: what the previous event left. */
  lemma PendingComesFromReview(c: Crypto, es: seq<Event>, i: nat)
    requires Legal(c, START, es) && i <= |es| && After(c, START, es[..i]).pending.OnEmail?
    ensures i >= 1 && ReviewInv(c, After(c, START, es[..i]))
    ensures Out(c, START, es, i - 1) == EmailReview(ScreenOf(Decode(After(c, START, es[..i]).ctx.raw)))
  {
    hide Step, ScreenOf, StatusOf, Decode;
    assert es[..0] == [];
    if i >= 1 {
      AfterStep(c, START, es, i - 1);
      ReviewStep(c, After(c, START, es[..i - 1]), es[i - 1]);
    }
  }

  lemma SignatureFollowsReview(c: Crypto, es: seq<Event>, i: nat)
    requires Legal(c, START, es) && i < |es| && Out(c, START, es, i).Signed?
    ensures After(c, START, es[..i]).pending.OnEmail? && es[i] == Choice(true, true)
    ensures i >= 1 && Out(c, START, es, i - 1).EmailReview?
  {
    hide Step, ScreenOf, StatusOf, Decode, After;
    ReviewStep(c, After(c, START, es[..i]), es[i]);
    PendingComesFromReview(c, es, i);
  }

  /**
   Every signature of every run answers an approving choice on the review just shown. Whoever reads that
   screen, line by line and tag by tag, reads one well-formed email; the kept chunks put together are its
   encoding, and the signature is that of its digest, under the path of the session's chunk 0.
   */
  lemma SignatureCoversScreen(c: Crypto, es: seq<Event>, i: nat)
    requires Legal(c, START, es) && i < |es| && Out(c, START, es, i).Signed?
    ensures i >= 1 && es[i] == Choice(true, true) && Out(c, START, es, i - 1).EmailReview?
    ensures JournalOf(es[..i]).Open? && !JournalOf(es[..i]).token
    ensures var j, shown := JournalOf(es[..i]), Out(c, START, es, i - 1).screen;
            && ReadScreen(shown).Some?
            && var e := ReadScreen(shown).value;
            && Valid(e) && shown == ScreenOf(e)
            && Accepted(Flatten(j.chunks)) && Encode(e) == Flatten(j.chunks)
            && Out(c, START, es, i) == Signed(PackSignature(c.sign(PathOf(j.start), c.sha256(Encode(e)))))
  {
    hide ScreenOf, ReadScreen, StatusOf, Decode, PathOf, Encode, Valid, Dispatch, JournalOf, Flatten;
    var s := After(c, START, es[..i]);
    SignatureFollowsReview(c, es, i);
    PendingComesFromReview(c, es, i);
    AccumulatorInvariant(c, es[..i]);
    ScreenReadsBack(Decode(s.ctx.raw));
  }

  /**
   A review is followed by its one answer. A refusal, a signing call that fails and a signature each have their
   reply and leave their state; nothing else of the context changes.
   */
  lemma ReviewIsAnsweredOnce(c: Crypto, es: seq<Event>, i: nat)
    requires Legal(c, START, es) && i + 1 < |es| && Out(c, START, es, i).EmailReview?
    ensures es[i + 1].Choice?
    ensures var ctx := After(c, START, es[..i + 1]).ctx;
            var answer, out, t := es[i + 1], Out(c, START, es, i + 1), After(c, START, es[..i + 2]);
            && (!answer.confirm ==>
                  out == Status(ConditionsNotSatisfied) && t == Device(ctx.(state := StateNone), Idle))
            && (answer.confirm && !answer.signOk ==>
                  out == Status(SecurityIssue) && t == Device(ctx.(state := StateNone), Idle))
            && (answer.confirm && answer.signOk ==>
                  && out == Signed(PackSignature(c.sign(ctx.path, ctx.hash)))
                  && t == Device(ctx.(state := StateApproved), Idle))
  {
    hide ScreenOf, StatusOf, Decode, PathOf, Dispatch, After, PackSignature;
    AfterStep(c, START, es, i);
    ReviewStep(c, After(c, START, es[..i]), es[i]);
    AfterStep(c, START, es, i + 1);
  }

  // ---- one review per session ----

  /** The bytes already contain a complete payload at their front. */
  ghost predicate Spent(raw: Bytes) {
    exists n :: 0 <= n <= |raw| && Accepted(raw[..n])
  }

  /** A context in which a further chunk may still open an email review. */
  ghost predicate Armed(ctx: Context) {
    ctx.reqType == ConfirmTransaction && !Spent(ctx.raw)
  }

  /** Nothing accepted extends a spent string. */
  lemma SpentIsFinal(raw: Bytes, x: Bytes)
    requires Spent(raw)
    ensures Spent(raw + x)
    ensures x != [] ==> !Accepted(raw + x)
  {
    hide StatusOf;
    var n :| 0 <= n <= |raw| && Accepted(raw[..n]);
    assert (raw + x)[..n] == raw[..n];
    if Accepted(raw + x) {
      AcceptedPrefixFree(raw[..n], raw + x);
    }
  }

  lemma AcceptedIsSpent(raw: Bytes)
    requires Accepted(raw)
    ensures Spent(raw)
  {
    hide StatusOf;
    assert raw[..|raw|] == raw;
  }

  /** Only a SIGN_TX chunk 0 arms the context; a review needs an armed context and disarms it. */
  lemma DisarmedStep(c: Crypto, s: Device, e: Event)
    ensures !Armed(s.ctx) && !OpensEmail(e) ==> !Armed(Step(c, s, e).0.ctx) && !Step(c, s, e).1.EmailReview?
    ensures Step(c, s, e).1.EmailReview? ==> !Armed(Step(c, s, e).0.ctx) && !Opens(e)
    ensures Closes(e) || (Opens(e) && IsToken(e)) ==> !Armed(Step(c, s, e).0.ctx)
  {
    hide ScreenOf, StatusOf, PathOf, PathOk, Decode, Spent;
    if Continues(e) {
      if Spent(s.ctx.raw) {
        SpentIsFinal(s.ctx.raw, e.cmd.data);
      }
      if Accepted(s.ctx.raw + e.cmd.data) {
        AcceptedIsSpent(s.ctx.raw + e.cmd.data);
      }
    }
  }

  /** Without a SIGN_TX chunk 0, no events whatever lead a disarmed device to an email review. */
  lemma {:induction false} DisarmedStays(c: Crypto, s: Device, es: seq<Event>)
    requires !Armed(s.ctx) && forall k :: 0 <= k < |es| ==> !OpensEmail(es[k])
    ensures !Armed(After(c, s, es).ctx)
    ensures forall k :: 0 <= k < |es| ==> !Out(c, s, es, k).EmailReview?
  {
    hide Step, Armed, OpensEmail;
    if es != [] {
      var front := es[..|es| - 1];
      DisarmedStays(c, s, front);
      DisarmedStep(c, After(c, s, front), es[|es| - 1]);
      forall k | 0 <= k < |es|
        ensures !Out(c, s, es, k).EmailReview?
      {
        if k < |front| {
          assert !Out(c, s, front, k).EmailReview?;
          assert front[..k] == es[..k];
        }
      }
    }
  }

  lemma ReviewNeedsOpen(c: Crypto, es: seq<Event>, i: nat, j: nat)
    requires i <= j < |es| && !Armed(After(c, START, es[..i]).ctx) && Out(c, START, es, j).EmailReview?
    ensures exists k :: i <= k < j && OpensEmail(es[k])
  {
    hide Step, After, Armed;
    DisarmedStep(c, After(c, START, es[..j]), es[j]);
    var mid := es[i..j + 1];
    OutConcat(c, START, es[..i], mid, j - i);
    assert (es[..i] + mid)[..j] == es[..j];
    if forall k :: 0 <= k < |mid| ==> !OpensEmail(mid[k]) {
      DisarmedStays(c, After(c, START, es[..i]), mid);
    }
  }

  /** The start is disarmed, and so is every state after a token chunk 0, a GET_PUBLIC_KEY or a review. */
  lemma SessionIsolation(c: Crypto, es: seq<Event>, i: nat, j: nat)
    requires i < j < |es| && Out(c, START, es, j).EmailReview?
    requires Closes(es[i]) || (Opens(es[i]) && IsToken(es[i])) || Out(c, START, es, i).EmailReview?
    ensures exists k :: i < k < j && OpensEmail(es[k])
  {
    hide Step, After, Armed, OpensEmail;
    AfterStep(c, START, es, i);
    DisarmedStep(c, After(c, START, es[..i]), es[i]);
    ReviewNeedsOpen(c, es, i + 1, j);
  }

  /** No run shows an email before a SIGN_TX chunk 0. */
  lemma FirstReviewNeedsOpen(c: Crypto, es: seq<Event>, j: nat)
    requires j < |es| && Out(c, START, es, j).EmailReview?
    ensures exists k :: 0 <= k < j && OpensEmail(es[k])
  {
    assert es[..0] == [];
    hide Step, OpensEmail;
    ReviewNeedsOpen(c, es, 0, j);
  }

  /** One chunk 0, at most one signature. */
  lemma OneSignaturePerSession(c: Crypto, es: seq<Event>, i: nat, j: nat)
    requires Legal(c, START, es) && i < j < |es|
    requires Out(c, START, es, i).Signed? && Out(c, START, es, j).Signed?
    ensures exists k :: i < k < j && OpensEmail(es[k])
  {
    hide Step, After, Legal, Out;
    SignatureFollowsReview(c, es, i);
    SignatureFollowsReview(c, es, j);
    SessionIsolation(c, es, i - 1, j - 1);
  }

  /** Event k makes the accumulated bytes grow into an accepted payload. */
  predicate ParsesAt(c: Crypto, s: Device, es: seq<Event>, k: nat)
    requires k < |es|
  {
    After(c, s, es[..k + 1]).ctx.raw != After(c, s, es[..k]).ctx.raw && Accepted(After(c, s, es[..k + 1]).ctx.raw)
  }

  lemma DigestStep(c: Crypto, s: Device, e: Event)
    requires Spent(s.ctx.raw) && !Opens(e) && !Closes(e)
    ensures var t := Step(c, s, e).0;
            t.ctx.hash == s.ctx.hash && t.ctx.path == s.ctx.path && s.ctx.raw <= t.ctx.raw && Spent(t.ctx.raw)
    ensures !Step(c, s, e).1.EmailReview?
    ensures Step(c, s, e).0.ctx.raw == s.ctx.raw || !Accepted(Step(c, s, e).0.ctx.raw)
  {
    hide ScreenOf, StatusOf, PathOf, PathOk, Decode, Spent;
    if Continues(e) {
      SpentIsFinal(s.ctx.raw, e.cmd.data);
    }
  }

  /** Once the bytes have parsed, continuation chunks neither parse again nor change the digest. */
  lemma {:induction false} DigestStable(c: Crypto, s: Device, es: seq<Event>)
    requires Spent(s.ctx.raw) && forall k :: 0 <= k < |es| ==> !Opens(es[k]) && !Closes(es[k])
    ensures var t := After(c, s, es);
            t.ctx.hash == s.ctx.hash && t.ctx.path == s.ctx.path && s.ctx.raw <= t.ctx.raw && Spent(t.ctx.raw)
    ensures forall k :: 0 <= k < |es| ==> !Out(c, s, es, k).EmailReview?
    ensures forall k :: 0 <= k < |es| ==> !ParsesAt(c, s, es, k)
  {
    hide Step, Spent, Opens, Closes;
    if es != [] {
      var front := es[..|es| - 1];
      DigestStable(c, s, front);
      DigestStep(c, After(c, s, front), es[|es| - 1]);
      assert es[..|es|] == es;
      forall k | 0 <= k < |es|
        ensures !Out(c, s, es, k).EmailReview? && !ParsesAt(c, s, es, k)
      {
        if k < |front| {
          assert !Out(c, s, front, k).EmailReview? && !ParsesAt(c, s, front, k);
          assert front[..k] == es[..k] && front[..k + 1] == es[..k + 1];
        }
      }
    }
  }

  lemma OneEvent(c: Crypto, s: Device, e: Event)
    ensures After(c, s, [e]) == Step(c, s, e).0
    ensures Legal(c, s, [e]) <==> Enabled(s, e)
  {
    hide Step, Enabled;
    assert [e][..0] == [];
  }

  lemma FirstOut(c: Crypto, s: Device, es: seq<Event>)
    requires es != []
    ensures Out(c, s, es, 0) == Step(c, s, es[0]).1
  {
    hide Step;
    assert es[..0] == [];
  }

  lemma ForgetStep(c: Crypto, s: Device, t: Device, e: Event)
    requires Opens(e) || Closes(e)
    ensures Step(c, s, e) == Step(c, t, e)
  {
    hide ProcessThenReview, PathOf, PathOk;
  }

  /** A chunk 0 or a GET_PUBLIC_KEY forgets everything: what follows does not depend on what came before. */
  lemma OpenForgets(c: Crypto, s: Device, t: Device, es: seq<Event>, k: nat)
    requires k < |es| && (Opens(es[0]) || Closes(es[0]))
    ensures Out(c, s, es, k) == Out(c, t, es, k)
    ensures After(c, s, es) == After(c, t, es)
  {
    hide *;
    var e, rest := es[0], es[1..];
    ForgetStep(c, s, t, e);
    assert es == [e] + rest;
    OneEvent(c, s, e);
    OneEvent(c, t, e);
    AfterConcat(c, s, [e], rest);
    AfterConcat(c, t, [e], rest);
    if k == 0 {
      FirstOut(c, s, es);
      FirstOut(c, t, es);
    } else {
      OutConcat(c, s, [e], rest, k - 1);
      OutConcat(c, t, [e], rest, k - 1);
    }
  }

  // ---- the path that is signed under ----

  predicate ValidPath(p: seq<u32>) {
    1 <= |p| <= MAX_BIP32_PATH
  }

  function Words(p: seq<u32>): (b: Bytes)
    ensures |b| == 4 * |p|
  {
    if p == [] then [] else Words(p[..|p| - 1]) + U32be(p[|p| - 1])
  }

  /** A derivation path as the host packs it. */
  function PackPath(p: seq<u32>): Bytes
    requires ValidPath(p)
  {
    [|p|] + Words(p)
  }

  /** The path in the device's fixed-size array. */
  function Stored(p: seq<u32>): Path
    requires ValidPath(p)
  {
    Path(|p|, p + Zeros(MAX_BIP32_PATH - |p|))
  }

  lemma {:induction false} WordAt(p: seq<u32>, i: nat, t: Bytes)
    requires i < |p|
    ensures ReadU32be((Words(p) + t)[4 * i..]) == p[i]
  {
    var front, last := p[..|p| - 1], p[|p| - 1];
    var tail := U32be(last) + t;
    assert Words(p) + t == Words(front) + tail;
    if i < |front| {
      WordAt(front, i, tail);
    } else {
      assert (Words(front) + tail)[4 * i..] == tail;
      ReadWritten(0, last, t);
    }
  }

  /** The number that the four bytes at a position stand for, the first one counting most. */
  function ValueAt(b: Bytes, at: nat): int
    requires at + 4 <= |b|
  {
    0x100_0000 * (b[at] as int) + 0x1_0000 * (b[at + 1] as int) + 0x100 * (b[at + 2] as int) + b[at + 3]
  }

  lemma ReadIsValue(b: Bytes, at: nat)
    requires at + 4 <= |b|
    ensures ReadU32be(b[at..]) == ValueAt(b, at)
  {
    var w := U32be(ReadU32be(b[at..]));
    assert w == b[at..][..4];
    assert w[0] == b[at] && w[1] == b[at + 1] && w[2] == b[at + 2] && w[3] == b[at + 3];
  }

  /** The bytes of a packed path: how many words, then each in four bytes. */
  lemma PackedPathLayout(p: seq<u32>, i: nat)
    requires ValidPath(p) && i < |p|
    ensures var b := PackPath(p);
            |b| == 1 + 4 * |p| && b[0] == |p| && ValueAt(b, 1 + 4 * i) == p[i]
  {
    hide Words, ReadU32be, ValueAt;
    var b := PackPath(p);
    WordAt(p, i, []);
    assert Words(p) + [] == Words(p) && b[1..] == Words(p);
    assert b[1 + 4 * i..] == Words(p)[4 * i..];
    ReadIsValue(b, 1 + 4 * i);
  }

  /** What any data leave as a path, byte by byte: missing words, and all words of an impossible path, are zero. */
  lemma PathOfBytes(data: Bytes, i: nat)
    requires data != [] && i < MAX_BIP32_PATH
    ensures PathOf(data).len == data[0]
    ensures PathOf(data).words[i]
         == if i < data[0] <= 10 && 5 + 4 * i <= |data| then ValueAt(data, 1 + 4 * i) else 0
  {
    hide ReadU32be, ValueAt;
    if 5 + 4 * i <= |data| {
      ReadIsValue(data, 1 + 4 * i);
    }
  }

  /** A packed path is stored as it is, whatever follows it. */
  lemma PackedPathIsStored(p: seq<u32>, t: Bytes)
    requires ValidPath(p)
    ensures PathOk(PackPath(p) + t) && PathOf(PackPath(p) + t) == Stored(p)
  {
    var data := PackPath(p) + t;
    assert data == [|p|] + (Words(p) + t);
    hide Words, ReadU32be;
    forall i | 0 <= i < MAX_BIP32_PATH
      ensures PathWord(data, i) == Stored(p).words[i]
    {
      if i < |p| {
        WordAt(p, i, t);
        assert data[1 + 4 * i..] == (Words(p) + t)[4 * i..];
      }
    }
    assert PathOf(data).words == Stored(p).words;
  }

  function ReadWords(b: Bytes, n: nat): (p: seq<u32>)
    requires 4 * n <= |b|
    ensures |p| == n && Words(p) == b[..4 * n]
  {
    if n == 0 then []
    else
      var front, last := ReadWords(b, n - 1), ReadU32be(b[4 * (n - 1)..]);
      var p := front + [last];
      assert p[..|p| - 1] == front;
      assert b[4 * (n - 1)..][..4] == b[4 * (n - 1)..4 * n];
      assert b[..4 * n] == b[..4 * (n - 1)] + b[4 * (n - 1)..4 * n];
      p
  }

  /** The reader accepts exactly the data that begin with a packed path. */
  lemma PathOkIff(data: Bytes)
    ensures PathOk(data) <==> exists p :: ValidPath(p) && PackPath(p) <= data
  {
    hide Words;
    if PathOk(data) {
      var p := ReadWords(data[1..], data[0]);
      assert PackPath(p) == data[..1 + 4 * data[0]];
    }
    forall p | ValidPath(p) && PackPath(p) <= data
      ensures PathOk(data)
    {
      PackedPathIsStored(p, data[|PackPath(p)|..]);
      assert data == PackPath(p) + data[|PackPath(p)|..];
    }
  }

  /** The chunk 0 of the open session. */
  function OpenIndex(es: seq<Event>): (k: nat)
    requires JournalOf(es).Open?
    ensures k < |es| && Opens(es[k])
    ensures JournalOf(es).start == es[k].cmd.data && JournalOf(es).token == IsToken(es[k])
    ensures forall m :: k < m < |es| ==> !Opens(es[m]) && !Closes(es[m])
  {
    if Opens(es[|es| - 1]) then |es| - 1 else OpenIndex(es[..|es| - 1])
  }

  lemma OpenIsAnswered(c: Crypto, s: Device, e: Event)
    requires Opens(e)
    ensures Step(c, s, e).1 == Status(if PathOk(e.cmd.data) then Success else WrongDataLength)
  {
    hide PathOk, PathOf, StatusOf;
  }

  lemma AnsweredAt(c: Crypto, es: seq<Event>, k: nat)
    requires k < |es| && Opens(es[k])
    ensures Out(c, START, es, k) == Status(if PathOk(es[k].cmd.data) then Success else WrongDataLength)
  {
    hide Step, Opens, PathOk, After;
    OpenIsAnswered(c, After(c, START, es[..k]), es[k]);
  }

  lemma SignedUnderContextPath(c: Crypto, es: seq<Event>, i: nat)
    requires Legal(c, START, es) && i < |es| && Out(c, START, es, i).Signed?
    ensures JournalOf(es[..i]).Open?
    ensures var ctx := After(c, START, es[..i]).ctx;
            && ctx.path == PathOf(JournalOf(es[..i]).start)
            && Out(c, START, es, i) == Signed(PackSignature(c.sign(ctx.path, ctx.hash)))
  {
    hide ScreenOf, ReadScreen, Valid, Encode, PathOf, PathOk, Flatten, StatusOf, Decode, Dispatch, JournalOf;
    SignatureCoversScreen(c, es, i);
    AccumulatorInvariant(c, es[..i]);
  }

  /**
   Every signature is under what chunk 0 of its session left as the path. That chunk was answered with
   success exactly when it carried a packed path, and then the signature is under that path.
   */
  lemma SignedPath(c: Crypto, es: seq<Event>, i: nat)
    requires Legal(c, START, es) && i < |es| && Out(c, START, es, i).Signed?
    ensures JournalOf(es[..i]).Open?
    ensures var k := OpenIndex(es[..i]);
            var data, digest := es[k].cmd.data, After(c, START, es[..i]).ctx.hash;
            && Out(c, START, es, i) == Signed(PackSignature(c.sign(PathOf(data), digest)))
            && (Out(c, START, es, k) == Status(Success) <==> exists p :: ValidPath(p) && PackPath(p) <= data)
            && forall p :: ValidPath(p) && PackPath(p) <= data ==> PathOf(data) == Stored(p)
  {
    hide Step, Out, ScreenOf, PathOf, PathOk, Flatten, StatusOf, Decode, Stored, PackPath;
    SignedUnderContextPath(c, es, i);
    var k := OpenIndex(es[..i]);
    AnsweredAt(c, es, k);
    var data := es[k].cmd.data;
    PathOkIff(data);
    forall p | ValidPath(p) && PackPath(p) <= data
      ensures PathOf(data) == Stored(p)
    {
      PackedPathIsStored(p, data[|PackPath(p)|..]);
      assert data == PackPath(p) + data[|PackPath(p)|..];
    }
  }

  function SignCommand(token: bool, p1: byte, more: bool, data: Bytes): Command {
    Command(CLA, if token then SIGN_TOKEN_TX else SIGN_TX, p1, if more then P2_MORE else P2_LAST, data)
  }

  lemma RefusedOpen(c: Crypto, e: Event)
    requires OpensEmail(e) && !PathOk(e.cmd.data)
    ensures Step(c, START, e)
         == (Device(WIPED.(reqType := ConfirmTransaction, path := PathOf(e.cmd.data)), Idle), Status(WrongDataLength))
  {
    hide PathOf, PathOk, ProcessThenReview;
  }

  /** A whole accepted payload in one last chunk. */
  lemma OnlyChunk(c: Crypto, s: Device, e: Event)
    requires Continues(e) && !IsToken(e) && e.cmd.p2 == P2_LAST && e.env.fault.None?
    requires s.ctx.reqType == ConfirmTransaction && s.ctx.raw == [] && Accepted(e.cmd.data)
    ensures var ctx := s.ctx.(raw := e.cmd.data, state := StateParsed, hash := c.sha256(e.cmd.data));
            Step(c, s, e) == (Device(ctx, OnEmail), EmailReview(ScreenOf(Decode(e.cmd.data))))
  {
    hide Decode, ScreenOf, Verdict, Scan;
    assert [] + e.cmd.data == e.cmd.data;
  }

  lemma Approve(c: Crypto, t: Device)
    requires t.pending.OnEmail?
    ensures Enabled(t, Choice(true, true))
    ensures Step(c, t, Choice(true, true)).1 == Signed(PackSignature(c.sign(t.ctx.path, t.ctx.hash)))
  {
    hide Dispatch;
  }

  lemma AfterNothing(c: Crypto, s: Device)
    ensures After(c, s, []) == s
  {
  }

  lemma NonEmptyEncoding(e: Email)
    requires Sized(e)
    ensures Encode(e) != []
  {
  }

  /** A chunk 0 that was refused still opens the session: the email that follows it is shown and signed. */
  lemma RefusedStartStillSigns(c: Crypto, env: Env, bad: Bytes, e: Email)
    requires bad != [] && !PathOk(bad)
    requires Valid(e) && |Encode(e)| <= 255 && env.fault.None?
    ensures var es := [Apdu(SignCommand(false, 0, true, bad), env), Apdu(SignCommand(false, 1, false, Encode(e)), env),
                       Choice(true, true)];
            && Legal(c, START, es)
            && Out(c, START, es, 0) == Status(WrongDataLength)
            && Out(c, START, es, 1) == EmailReview(ScreenOf(e))
            && Out(c, START, es, 2) == Signed(PackSignature(c.sign(PathOf(bad), c.sha256(Encode(e)))))
  {
    hide ScreenOf, PathOf, PathOk, StatusOf, Encode, Valid, After, Decode, Step;
    EncodingAccepted(e);
    NonEmptyEncoding(e);
    var es := [Apdu(SignCommand(false, 0, true, bad), env), Apdu(SignCommand(false, 1, false, Encode(e)), env),
               Choice(true, true)];
    AfterNothing(c, START);
    assert es[..0] == [];
    AfterStep(c, START, es, 0);
    AfterStep(c, START, es, 1);
    RefusedOpen(c, es[0]);
    OnlyChunk(c, After(c, START, es[..1]), es[1]);
    Approve(c, After(c, START, es[..2]));
  }

  // ---- stuttering ----

  function Outputs(c: Crypto, s: Device, es: seq<Event>): (os: seq<Output>)
    ensures |os| == |es|
  {
    if es == [] then []
    else Outputs(c, s, es[..|es| - 1]) + [Step(c, After(c, s, es[..|es| - 1]), es[|es| - 1]).1]
  }

  lemma OutputsNothing(c: Crypto, s: Device)
    ensures Outputs(c, s, []) == []
  {
  }

  lemma {:induction false} OutputsAt(c: Crypto, s: Device, es: seq<Event>, i: nat)
    requires i < |es|
    ensures Outputs(c, s, es)[i] == Out(c, s, es, i)
  {
    hide Step;
    var front := es[..|es| - 1];
    if i < |front| {
      OutputsAt(c, s, front, i);
      assert front[..i] == es[..i];
    }
  }

  function Essential(es: seq<Event>): seq<Event> {
    if es == [] then []
    else Essential(es[..|es| - 1]) + if Inert(es[|es| - 1]) then [] else [es[|es| - 1]]
  }

  /** The outputs of the essential events. */
  function EssentialOutputs(c: Crypto, s: Device, es: seq<Event>): seq<Output> {
    if es == [] then []
    else
      var front, e := es[..|es| - 1], es[|es| - 1];
      EssentialOutputs(c, s, front) + if Inert(e) then [] else [Step(c, After(c, s, front), e).1]
  }

  lemma InertStep(c: Crypto, s: Device, e: Event)
    requires Inert(e) && Enabled(s, e)
    ensures Step(c, s, e).0 == s
    ensures !Step(c, s, e).1.EmailReview? && !Step(c, s, e).1.Signed?
  {
    hide SignTx, GetPublicKey;
  }

  lemma LegalSnoc(c: Crypto, s: Device, es: seq<Event>, e: Event)
    ensures Legal(c, s, es + [e]) <==> Legal(c, s, es) && Enabled(After(c, s, es), e)
  {
    hide After, Step, Enabled;
    var all := es + [e];
    assert forall i :: 0 <= i < |es| ==> all[..i] == es[..i] && all[i] == es[i];
    assert all[..|es|] == es && all[|es|] == e;
  }

  lemma LegalAt(c: Crypto, s: Device, es: seq<Event>, i: nat)
    requires Legal(c, s, es) && i < |es|
    ensures Enabled(After(c, s, es[..i]), es[i])
  {
  }

  lemma OutputsSnoc(c: Crypto, s: Device, es: seq<Event>, e: Event)
    ensures Outputs(c, s, es + [e]) == Outputs(c, s, es) + [Step(c, After(c, s, es), e).1]
    ensures After(c, s, es + [e]) == Step(c, After(c, s, es), e).0
  {
    hide Step;
    assert (es + [e])[..|es|] == es;
  }

  lemma LegalNothing(c: Crypto, s: Device)
    ensures Legal(c, s, [])
  {
  }

  /** Deleting every inert command leaves a legal run with the same end, the same reviews and the same signatures. */
  lemma {:induction false} Stuttering(c: Crypto, s: Device, es: seq<Event>)
    requires Legal(c, s, es)
    ensures Legal(c, s, Essential(es))
    ensures After(c, s, Essential(es)) == After(c, s, es)
    ensures Outputs(c, s, Essential(es)) == EssentialOutputs(c, s, es)
  {
    hide Step, Legal, Inert, Enabled;
    if es == [] {
      LegalNothing(c, s);
    } else {
      var front, e := es[..|es| - 1], es[|es| - 1];
      assert front + [e] == es;
      LegalSnoc(c, s, front, e);
      Stuttering(c, s, front);
      if Inert(e) {
        InertStep(c, After(c, s, front), e);
        assert Essential(es) == Essential(front);
      } else {
        LegalSnoc(c, s, Essential(front), e);
        OutputsSnoc(c, s, Essential(front), e);
      }
    }
  }

  // ---- one reply per command ----

  predicate IsReply(o: Output) {
    !o.EmailReview? && !o.AddressReview? && !o.Nothing?
  }

  function Replies(os: seq<Output>): nat {
    if os == [] then 0 else Replies(os[..|os| - 1]) + if IsReply(os[|os| - 1]) then 1 else 0
  }

  function Commands(es: seq<Event>): nat {
    if es == [] then 0 else Commands(es[..|es| - 1]) + if es[|es| - 1].Choice? then 0 else 1
  }

  function Owed(s: Device): nat {
    if s.pending.Idle? then 0 else 1
  }

  lemma StepConserves(c: Crypto, s: Device, e: Event)
    requires Enabled(s, e)
    ensures (if e.Choice? then 0 else 1) + Owed(s)
         == (if IsReply(Step(c, s, e).1) then 1 else 0) + Owed(Step(c, s, e).0)
  {
    hide ScreenOf, StatusOf, PathOf, PathOk, Decode;
  }

  lemma RepliesSnoc(os: seq<Output>, o: Output)
    ensures Replies(os + [o]) == Replies(os) + if IsReply(o) then 1 else 0
  {
    assert (os + [o])[..|os|] == os;
  }

  /** In every run the commands received are the replies sent, plus the one owed by a pending review. */
  lemma {:induction false} ResponseConservation(c: Crypto, es: seq<Event>)
    requires Legal(c, START, es)
    ensures Commands(es) == Replies(Outputs(c, START, es)) + Owed(After(c, START, es))
  {
    hide Step, Legal, IsReply, Enabled;
    if es != [] {
      var front, e := es[..|es| - 1], es[|es| - 1];
      assert front + [e] == es;
      LegalSnoc(c, START, front, e);
      ResponseConservation(c, front);
      StepConserves(c, After(c, START, front), e);
      RepliesSnoc(Outputs(c, START, front), Step(c, After(c, START, front), e).1);
    }
  }
}
