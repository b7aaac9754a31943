/**
 When a public key leaves the device: over all runs, and for the host's two ways of asking for one.
 */
module Keys {
  import opened ByteString
  import opened Session
  import opened Runs
  import opened StatusWords
  import opened Host
  import opened Firmware

  /** A GET_PUBLIC_KEY command with a packed path whose key is derived. */
  predicate Derives(e: Event) {
    e.Apdu? && AsksForKey(e.cmd) && PathOk(e.cmd.data) && e.env.key.Key?
  }

  /** Such a command with P1 = 1 whose address can be shown. */
  predicate ShowsAddress(e: Event) {
    Derives(e) && e.cmd.p1 == 1 && e.env.key.addressOk
  }

  lemma AddressStep(c: Crypto, s: Device, e: Event)
    requires Enabled(s, e)
    ensures Step(c, s, e).0.pending.OnAddress? <==> ShowsAddress(e)
    ensures ShowsAddress(e) ==>
              && Step(c, s, e).1 == AddressReview
              && Step(c, s, e).0.pending == OnAddress(PackKey(e.env.key.pub, e.env.key.chain))
  {
    if e.Apdu? {
      KeyIff(c, s, e.cmd, e.env);
    }
    hide PathOk, PackKey, Dispatch;
  }

  lemma ReviewNeedsAddress(c: Crypto, s: Device, e: Event)
    requires Step(c, s, e).1 == AddressReview
    ensures ShowsAddress(e)
  {
    if e.Apdu? {
      KeyIff(c, s, e.cmd, e.env);
    }
    hide PathOk, PackKey, Dispatch;
  }

  /** What a step sends as a key. */
  lemma KeyStep(c: Crypto, s: Device, e: Event)
    requires Enabled(s, e)
    ensures Step(c, s, e).1.PublicKey? <==>
              (Derives(e) && e.cmd.p1 == 0) || (s.pending.OnAddress? && e.Choice? && e.confirm)
    ensures Derives(e) && e.cmd.p1 == 0 ==> Step(c, s, e).1 == PublicKey(PackKey(e.env.key.pub, e.env.key.chain))
    ensures s.pending.OnAddress? ==>
              && e.Choice? && Step(c, s, e).0 == Device(s.ctx, Idle)
              && Step(c, s, e).1 == if e.confirm then PublicKey(s.pending.reply) else Status(ConditionsNotSatisfied)
  {
    if e.Apdu? {
      KeyIff(c, s, e.cmd, e.env);
    }
    hide PathOk, PackKey, Dispatch;
  }

  /** An address review is pending exactly after the command that opened it. */
  lemma PendingAddress(c: Crypto, es: seq<Event>, i: nat)
    requires Legal(c, START, es) && i < |es|
    ensures After(c, START, es[..i]).pending.OnAddress? <==> i >= 1 && ShowsAddress(es[i - 1])
    ensures i >= 1 && ShowsAddress(es[i - 1]) ==>
              && Out(c, START, es, i - 1) == AddressReview
              && After(c, START, es[..i]).pending == OnAddress(PackKey(es[i - 1].env.key.pub, es[i - 1].env.key.chain))
  {
    hide Step, ShowsAddress, PackKey, Enabled;
    if i == 0 {
      assert es[..0] == [];
    } else {
      AfterStep(c, START, es, i - 1);
      AddressStep(c, After(c, START, es[..i - 1]), es[i - 1]);
    }
  }

  /**
   A key leaves the device in two ways only: at once, for a command with P1 = 0, or for an approving choice on the
   review that the command with P1 = 1 just before it opened. The host unpacks the key and chain code of that command.
   */
  lemma KeyReleasedIff(c: Crypto, es: seq<Event>, i: nat)
    requires Legal(c, START, es) && i < |es|
    ensures Out(c, START, es, i).PublicKey? <==>
            || (Derives(es[i]) && es[i].cmd.p1 == 0)
            || (i >= 1 && ShowsAddress(es[i - 1]) && es[i].Choice? && es[i].confirm)
    ensures Out(c, START, es, i).PublicKey? ==>
              var ask := if es[i].Choice? then es[i - 1] else es[i];
              && ask.Apdu? && ask.env.key.Key?
              && UnpackPublicKey(Out(c, START, es, i).data) == Some((ask.env.key.pub, ask.env.key.chain))
  {
    hide Step, After, PackKey, UnpackPublicKey, PackSignature, AsksForKey, PathOk;
    PendingAddress(c, es, i);
    KeyStep(c, After(c, START, es[..i]), es[i]);
    if Out(c, START, es, i).PublicKey? {
      var ask := if es[i].Choice? then es[i - 1] else es[i];
      UnpackPacked(Zeros(64), ask.env.key.pub, ask.env.key.chain);
    }
  }

  /** An address review is answered by the next event: with the key, or with a refusal and no key. */
  lemma AddressIsAnsweredOnce(c: Crypto, es: seq<Event>, i: nat)
    requires Legal(c, START, es) && i + 1 < |es| && Out(c, START, es, i) == AddressReview
    ensures ShowsAddress(es[i]) && es[i + 1].Choice?
    ensures After(c, START, es[..i + 2]) == Device(After(c, START, es[..i + 1]).ctx, Idle)
    ensures Out(c, START, es, i + 1)
         == if es[i + 1].confirm then PublicKey(PackKey(es[i].env.key.pub, es[i].env.key.chain))
            else Status(ConditionsNotSatisfied)
  {
    hide Step, After, PackKey, ShowsAddress;
    ReviewNeedsAddress(c, After(c, START, es[..i]), es[i]);
    PendingAddress(c, es, i + 1);
    KeyStep(c, After(c, START, es[..i + 1]), es[i + 1]);
    AfterStep(c, START, es, i + 1);
  }

  // ---- the host's request ----

  lemma PackedPathOk(p: seq<u32>)
    requires ValidPath(p)
    ensures PathOk(PackPath(p)) && PackPath(p) != []
  {
    PackedPathIsStored(p, []);
    hide Words;
    assert PackPath(p) + [] == PackPath(p);
  }

  /** The reply to a request for the key of a path, by what the derivation gave and what the human answered. */
  lemma RequestIs(c: Crypto, s: Device, cmd: Command, env: Env)
    requires s.pending.Idle? && AsksForKey(cmd) && PathOk(cmd.data)
    ensures var out := Step(c, s, Apdu(cmd, env)).1;
            match env.key
            case NoKey(code) => out == Status(KeyError(code))
            case Key(pub, chain, addressOk) =>
              if cmd.p1 == 0 then out == PublicKey(PackKey(pub, chain))
              else if addressOk then out == AddressReview
              else out == Status(IncorrectData)
  {
    KeyIff(c, s, cmd, env);
    PayloadIff(c, s, cmd, env);
    hide PathOk, PackKey, Dispatch;
  }

  /**
   get_public_key and get_public_key_with_confirmation on a live device. The host unpacks a key exactly when one was
   derived and, with confirmation, its address was shown and approved; it is the key and chain code that were derived.
   */
  method RequestKey(app: App, p: seq<u32>, confirmation: bool, env: Env, choice: bool)
    returns (reply: Output, key: Option<(Bytes, Bytes)>)
    requires app.Valid() && app.pending.Idle? && ValidPath(p)
    modifies app.Repr()
    ensures app.Valid() && app.pending.Idle?
    ensures app.history
         == old(app.history) + [Apdu(Command(0xE0, 0x05, if confirmation then 1 else 0, 0, PackPath(p)), env)]
            + if confirmation && env.key.Key? && env.key.addressOk then [Choice(choice, true)] else []
    ensures match env.key
            case NoKey(code) => reply == Status(KeyError(code)) && key.None?
            case Key(pub, chain, addressOk) =>
              if confirmation && !addressOk then reply == Status(IncorrectData) && key.None?
              else if confirmation && !choice then reply == Status(ConditionsNotSatisfied) && key.None?
              else reply.PublicKey? && key == Some((pub, chain))
  {
    hide Step, After, Legal, PathOk, PackPath, PackKey, UnpackPublicKey, PackSignature;
    var cmd := Command(CLA, GET_PUBLIC_KEY, if confirmation then 1 else 0, P2_LAST, PackPath(p));
    PackedPathOk(p);
    RequestIs(app.crypto, Device(app.Ctx(), app.pending), cmd, env);
    reply := app.Dispatcher(cmd, env);
    if reply.AddressReview? {
      KeyStep(app.crypto, Device(app.Ctx(), app.pending), Choice(choice, true));
      reply := app.Answer(choice, true);
    }
    key := None;
    if reply.PublicKey? {
      UnpackPacked(Zeros(64), env.key.pub, env.key.chain);
      key := UnpackPublicKey(reply.data);
    }
  }
}
