/**
 The application itself: the global context and the handlers that update it, each proved to do the
 corresponding step of `Session`. The ghost history ties every state the object can reach to a run.
 */
module Firmware {
  import opened ByteString
  import opened Memory
  import opened Wire
  import opened WireTheorems
  import opened Parser
  import opened RoundTrip
  import opened Screen
  import opened Display
  import opened Session
  import opened Runs

  const MAX_DER_SIG_LEN := 72

  method ClearWords(dst: array<u32>)
    modifies dst
    ensures dst[..] == Zeros(dst.Length)
  {
    forall i | 0 <= i < dst.Length {
      dst[i] := 0;
    }
  }

  /** buffer_read_bip32_path: n big-endian words, one to ten; those before a missing one are stored. */
  method ReadBip32Path(buf: Buffer, out: array<u32>, n: nat) returns (ok: bool)
    requires buf.Valid() && out.Length == MAX_BIP32_PATH && buf.bytes as object != out
    modifies buf, out
    ensures ok == (1 <= n <= MAX_BIP32_PATH && 4 * n <= |old(buf.Rest())|)
    ensures forall i :: 0 <= i < MAX_BIP32_PATH ==>
              out[i] == if n <= MAX_BIP32_PATH && i < n && 4 * i + 4 <= |old(buf.Rest())|
                        then ReadU32be(old(buf.Rest())[4 * i..]) else old(out[i])
  {
    hide ReadU32be;
    if n == 0 || n > MAX_BIP32_PATH {
      return false;
    }
    ghost var rest := buf.Rest();
    var i := 0;
    while i < n
      invariant i <= n && 4 * i <= |rest| && buf.Valid() && buf.Rest() == rest
      invariant forall j :: 0 <= j < MAX_BIP32_PATH ==>
        out[j] == if j < i then ReadU32be(rest[4 * j..]) else old(out[j])
    {
      var at := buf.offset + 4 * i;
      if at + 4 > buf.size {
        return false;
      }
      assert buf.bytes[at..buf.size] == rest[4 * i..];
      out[i] := ReadU32be(buf.bytes[at..buf.size]);
      i := i + 1;
    }
    ok := buf.SeekCur(4 * n);
  }

  /** The zeroed buffers of the global context. */
  method NewBuffers()
    returns (raw: array<byte>, sig: array<byte>, path: array<u32>, pub: array<byte>, chain: array<byte>)
    ensures fresh(raw) && raw.Length == MAX_TX_LEN && fresh(sig) && sig.Length == MAX_DER_SIG_LEN
    ensures fresh(path) && path.Length == MAX_BIP32_PATH && path[..] == Zeros(MAX_BIP32_PATH)
    ensures fresh(pub) && pub.Length == PUBKEY_LEN && fresh(chain) && chain.Length == CHAINCODE_LEN
    ensures raw != sig && raw != pub && raw != chain && sig != pub && sig != chain && pub != chain
  {
    raw := new byte[MAX_TX_LEN](_ => 0);
    sig := new byte[MAX_DER_SIG_LEN](_ => 0);
    path := new u32[MAX_BIP32_PATH](_ => 0);
    pub := new byte[PUBKEY_LEN](_ => 0);
    chain := new byte[CHAINCODE_LEN](_ => 0);
  }

  class App {
    const crypto: Crypto

    // G_context
    var state: State
    var reqType: ReqType
    const rawTx: array<byte>
    var rawTxLen: nat
    const transaction: EmailRecord
    var mHash: Digest
    const signature: array<byte>
    var signatureLen: byte
    var v: byte
    const bip32Path: array<u32>
    var bip32PathLen: byte
    const rawPublicKey: array<byte>
    const chainCode: array<byte>

    // the static display buffers and the review whose answer is awaited
    const ui: Ui
    var pending: Pending

    /** Everything received since the start. */
    ghost var history: seq<Event>

    ghost function Repr(): set<object> {
      {this, rawTx, transaction, signature, bip32Path, rawPublicKey, chainCode} + ui.Repr()
    }

    /** The buffers have their sizes and do not overlap. */
    ghost predicate Layout() {
      && rawTx.Length == MAX_TX_LEN && signature.Length == MAX_DER_SIG_LEN && signature != rawTx
      && ui.Valid() && rawTx !in ui.Repr() && signature !in ui.Repr()
      && rawPublicKey.Length == PUBKEY_LEN && chainCode.Length == CHAINCODE_LEN
      && rawPublicKey != chainCode && {rawPublicKey, chainCode} !! ({rawTx, signature} + ui.Repr())
      && bip32Path.Length == MAX_BIP32_PATH
      && bip32Path !in {rawTx, signature, rawPublicKey, chainCode} + ui.Repr()
    }

    ghost predicate Shape()
      reads this
    {
      Layout() && rawTxLen <= rawTx.Length
    }

    ghost function Ctx(): Context
      requires Shape()
      reads this, rawTx, bip32Path
    {
      Context(state, reqType, rawTx[..rawTxLen], mHash, Path(bip32PathLen, bip32Path[..]))
    }

    ghost function KeyReply(): Bytes
      reads rawPublicKey, chainCode
    {
      [PUBKEY_LEN] + rawPublicKey[..] + [CHAINCODE_LEN] + chainCode[..]
    }

    /** The object is where its history leads. */
    ghost predicate Valid()
      reads this, rawTx, bip32Path, rawPublicKey, chainCode
    {
      && (pending.OnAddress? ==> KeyReply() == pending.reply)
      && Shape() && Legal(crypto, START, history)
      && Device(Ctx(), pending) == After(crypto, START, history)
    }

    /** app_main up to its loop. */
    constructor (crypto: Crypto)
      ensures Valid() && history == [] && this.crypto == crypto && fresh(Repr())
    {
      hide Step, After, Legal;
      AfterNothing(crypto, START);
      LegalNothing(crypto, START);
      this.crypto := crypto;
      var raw, sig, path, pub, chain := NewBuffers();
      rawTx, signature, bip32Path, rawPublicKey, chainCode := raw, sig, path, pub, chain;
      transaction := new EmailRecord();
      ui := new Ui();
      pending, history := Idle, [];
      state, reqType, rawTxLen := StateNone, ConfirmAddress, 0;
      mHash, signatureLen, v, bip32PathLen := Zeros(32), 0, 0, 0;
      new;
      assert bip32Path[..] == NO_PATH.words;
    }

    /** A command buffer of its own. */
    ghost predicate Apart(cdata: Buffer) {
      cdata !in Repr() && cdata.bytes !in Repr()
    }

    method WipeBuffers()
      modifies rawTx, transaction, signature, rawPublicKey, chainCode, bip32Path
      ensures bip32Path[..] == Zeros(bip32Path.Length)
    {
      Clear(rawTx);
      transaction.Reset();
      Clear(signature);
      Clear(rawPublicKey);
      Clear(chainCode);
      ClearWords(bip32Path);
    }

    /** explicit_bzero(&G_context). */
    method Wipe()
      requires Shape()
      modifies this`state, this`reqType, this`rawTxLen, this`mHash, this`signatureLen, this`v, this`bip32PathLen,
               bip32Path, rawTx, transaction, signature, rawPublicKey, chainCode
      ensures Shape() && Ctx() == WIPED
    {
      assert bip32Path.Length == MAX_BIP32_PATH;
      hide Layout;
      state, reqType, rawTxLen := StateNone, ConfirmAddress, 0;
      mHash, signatureLen, v, bip32PathLen := Zeros(32), 0, 0, 0;
      WipeBuffers();
    }

    /** The path of a command, read into the wiped context. */
    method ReadPath(cdata: Buffer) returns (ok: bool)
      requires Shape() && cdata.Valid() && Apart(cdata) && Path(bip32PathLen, bip32Path[..]) == NO_PATH
      modifies this`bip32PathLen, bip32Path, cdata
      ensures ok == PathOk(old(cdata.Rest())) && Path(bip32PathLen, bip32Path[..]) == PathOf(old(cdata.Rest()))
    {
      hide ReadU32be;
      ghost var data := cdata.Rest();
      assert forall i :: 0 <= i < MAX_BIP32_PATH ==> bip32Path[i] == bip32Path[..][i] == 0;
      var n;
      ok, n := cdata.ReadU8();
      bip32PathLen := n;
      if !ok {
        return;
      }
      ok := ReadBip32Path(cdata, bip32Path, n);
      forall i | 0 <= i < MAX_BIP32_PATH
        ensures bip32Path[i] == PathWord(data, i)
      {
        assert 4 * i <= |data[1..]| ==> data[1..][4 * i..] == data[1 + 4 * i..];
      }
      assert bip32Path[..] == PathOf(data).words;
    }

    method InitTransactionContext(cdata: Buffer, token: bool) returns (sw: Sw)
      requires Shape() && cdata.Valid() && Apart(cdata)
      modifies this`state, this`reqType, this`rawTxLen, this`mHash, this`signatureLen, this`v, this`bip32PathLen,
               bip32Path, rawTx, transaction, signature, rawPublicKey, chainCode, cdata
      ensures Shape() && (Ctx(), sw) == InitContext(old(cdata.Rest()), token)
    {
      hide PathOf, PathOk;
      Wipe();
      reqType := ReqOf(token);
      state := StateNone;
      var ok := ReadPath(cdata);
      return if ok then Success else WrongDataLength;
    }

    method AccumulateTransactionData(cdata: Buffer, token: bool) returns (sw: Sw)
      requires Shape() && cdata.Valid() && cdata.offset == 0 && Apart(cdata)
      modifies this`rawTxLen, rawTx, cdata
      ensures Shape() && (Ctx(), sw) == old(Accumulate(Ctx(), cdata.Rest(), token))
    {
      if reqType != ReqOf(token) {
        return ConditionsNotSatisfied;
      }
      if rawTxLen + cdata.size > rawTx.Length {
        return WrongDataLength;
      }
      ghost var before, data := rawTx[..rawTxLen], cdata.Rest();
      var ok := cdata.MoveTo(rawTx, rawTxLen, cdata.size);
      if !ok {
        return IncorrectData;
      }
      rawTxLen := rawTxLen + cdata.size;
      assert rawTx[..rawTxLen] == before + data;
      return Success;
    }

    /** Parses the accumulated bytes in place and hashes them; on success the record holds their email. */
    method ProcessTransaction(fault: Option<Digest>) returns (sw: Sw)
      requires Shape()
      modifies this`state, this`mHash, transaction
      ensures Shape() && (Ctx(), sw) == old(Process(crypto, Ctx(), fault))
      ensures sw == Success ==>
                Accepted(Ctx().raw) && transaction.ReadsFrom({rawTx}) && transaction.View({rawTx}) == Decode(Ctx().raw)
    {
      hide StatusOf, Decode, EmailRecord.View, EmailRecord.ReadsFrom;
      var status := Parse(rawTx, rawTxLen, transaction);
      if status != ParsingOk {
        return IncorrectData;
      }
      state := StateParsed;
      match fault
      case Some(left) =>
        mHash := left;
        return IncorrectData;
      case None =>
        mHash := crypto.sha256(rawTx[..rawTxLen]);
        return Success;
    }

    method DisplayTransaction() returns (out: Output)
      requires Shape() && Accepted(Ctx().raw)
      requires transaction.ReadsFrom({rawTx}) && transaction.View({rawTx}) == Decode(Ctx().raw)
      modifies this`state, ui.Repr()
      ensures Shape() && (Ctx(), out) == old(OpenReview(Ctx())) && !out.AddressReview?
    {
      hide StatusOf, Slice, ScreenOf, ReadScreen, Decode, Wire.Valid;
      if reqType != ConfirmTransaction || state != StateParsed {
        state := StateNone;
        return Status(ConditionsNotSatisfied);
      }
      var shown := ui.ShowEmail(transaction, {rawTx});
      return EmailReview(shown);
    }

    /** The last chunk: parse, hash and open the review. */
    method ProcessAndDisplay(fault: Option<Digest>) returns (out: Output)
      requires Shape()
      modifies this`state, this`mHash, transaction, ui.Repr()
      ensures Shape() && !out.AddressReview?
      ensures (Ctx(), out) == old(ProcessThenReview(crypto, Ctx(), fault))
    {
      hide StatusOf, Slice, ScreenOf, Process, OpenReview, Decode, EmailRecord.View, EmailRecord.ReadsFrom;
      var sw := ProcessTransaction(fault);
      if sw != Success {
        return Status(sw);
      }
      out := DisplayTransaction();
    }

    method HandlerSignTx(cdata: Buffer, chunk: byte, more: bool, token: bool, fault: Option<Digest>)
      returns (out: Output)
      requires Shape() && cdata.Valid() && cdata.offset == 0 && Apart(cdata)
      modifies Repr(), cdata
      ensures Shape() && (Ctx(), out) == old(SignTx(crypto, Ctx(), cdata.Rest(), chunk, more, token, fault))
      ensures !out.AddressReview?
      ensures unchanged(`pending) && unchanged(`history)
    {
      hide InitContext, Accumulate, ProcessThenReview, Layout;
      var sw;
      if chunk == 0 {
        sw := InitTransactionContext(cdata, token);
        return Status(sw);
      }
      sw := AccumulateTransactionData(cdata, token);
      if sw != Success {
        return Status(sw);
      }
      if more {
        return Status(Success);
      }
      out := ProcessAndDisplay(fault);
    }

    /** helper_send_response_pubkey: both lengths and both values, packed with a running offset. */
    method SendResponsePubkey() returns (data: Bytes)
      requires Shape()
      ensures data == KeyReply()
    {
      var resp := new byte[1 + PUBKEY_LEN + 1 + CHAINCODE_LEN](_ => 0);
      var offset := 0;
      resp[offset] := PUBKEY_LEN;
      offset := offset + 1;
      Move(resp, offset, At(rawPublicKey, 0), PUBKEY_LEN);
      offset := offset + PUBKEY_LEN;
      resp[offset] := CHAINCODE_LEN;
      offset := offset + 1;
      Move(resp, offset, At(chainCode, 0), CHAINCODE_LEN);
      offset := offset + CHAINCODE_LEN;
      data := resp[..offset];
    }

    /** What key derivation and compression leave in the context. */
    method StoreKey(pub: PubKey, chain: ChainCode)
      requires Shape()
      modifies rawPublicKey, chainCode
      ensures Ctx() == old(Ctx()) && KeyReply() == PackKey(pub, chain)
    {
      forall i | 0 <= i < PUBKEY_LEN {
        rawPublicKey[i] := pub[i];
      }
      forall i | 0 <= i < CHAINCODE_LEN {
        chainCode[i] := chain[i];
      }
      assert rawPublicKey[..] == pub && chainCode[..] == chain;
    }

    method HandlerGetPublicKey(cdata: Buffer, display: bool, key: KeyOutcome) returns (out: Output)
      requires Shape() && cdata.Valid() && Apart(cdata)
      modifies Repr(), cdata
      ensures Shape() && (Ctx(), out) == GetPublicKey(old(cdata.Rest()), display, key)
      ensures out.AddressReview? ==> key.Key? && KeyReply() == PackKey(key.pub, key.chain)
      ensures unchanged(`pending) && unchanged(`history)
    {
      hide PathOf, PathOk, PackKey, KeyReply, Layout;
      Wipe();
      reqType := ConfirmAddress;
      state := StateNone;
      var ok := ReadPath(cdata);
      if !ok {
        return Status(WrongDataLength);
      }
      match key
      case NoKey(code) =>
        return Status(KeyError(code));
      case Key(pub, chain, addressOk) =>
        StoreKey(pub, chain);
        if display {
          return if addressOk then AddressReview else Status(IncorrectData);
        }
        var reply := SendResponsePubkey();
        return PublicKey(reply);
    }

    lemma Extend(s: Device, e: Event)
      requires Legal(crypto, START, history) && s == After(crypto, START, history) && Enabled(s, e)
      ensures Legal(crypto, START, history + [e])
      ensures After(crypto, START, history + [e]) == Step(crypto, s, e).0
    {
      hide Step, Enabled, After;
      var es := history + [e];
      AfterStep(crypto, START, es, |history|);
      assert es[..|history|] == history && es[..|es|] == es;
      assert forall i :: 0 <= i < |history| ==> es[..i] == history[..i] && es[i] == history[i];
    }

    /** The data of a command as a buffer. */
    method CommandBuffer(data: Bytes) returns (buf: Buffer)
      ensures fresh(buf) && buf.Valid() && buf.offset == 0 && buf.Rest() == data && Apart(buf)
    {
      ghost var all := Repr();
      assert forall o :: o in all ==> allocated(o);
      hide Repr;
      var bytes := new byte[|data|](i requires 0 <= i < |data| => data[i]);
      buf := new Buffer(bytes, |data|);
      assert buf !in all && bytes !in all;
    }

    method RouteGetPublicKey(cmd: Command, key: KeyOutcome) returns (out: Output)
      requires Shape()
      modifies Repr()
      ensures Shape() && (Ctx(), out) == old(DispatchGetPublicKey(Ctx(), cmd, key))
      ensures out.AddressReview? ==> key.Key? && KeyReply() == PackKey(key.pub, key.chain)
      ensures unchanged(`pending) && unchanged(`history)
    {
      hide GetPublicKey, Layout, Apart, Repr, KeyReply, PackKey;
      if cmd.p1 > 1 || cmd.p2 > 0 {
        return Status(IncorrectP1P2);
      }
      if cmd.data == [] {
        return Status(WrongDataLength);
      }
      var buf := CommandBuffer(cmd.data);
      out := HandlerGetPublicKey(buf, cmd.p1 == 1, key);
    }

    method RouteSign(cmd: Command, fault: Option<Digest>) returns (out: Output)
      requires Shape()
      modifies Repr()
      ensures Shape() && (Ctx(), out) == old(DispatchSign(crypto, Ctx(), cmd, fault)) && !out.AddressReview?
      ensures unchanged(`pending) && unchanged(`history)
    {
      hide SignTx, Layout, Apart, Repr;
      if (cmd.p1 == P1_START && cmd.p2 != P2_MORE) || cmd.p1 > P1_MAX || (cmd.p2 != P2_LAST && cmd.p2 != P2_MORE) {
        return Status(IncorrectP1P2);
      }
      if cmd.data == [] {
        return Status(WrongDataLength);
      }
      var buf := CommandBuffer(cmd.data);
      out := HandlerSignTx(buf, cmd.p1, cmd.p2 == P2_MORE, cmd.ins == SIGN_TOKEN_TX, fault);
    }

    method Route(cmd: Command, env: Env) returns (out: Output)
      requires Shape()
      modifies Repr()
      ensures Shape() && (Ctx(), out) == old(Dispatch(crypto, Ctx(), cmd, env))
      ensures out.AddressReview? ==> env.key.Key? && KeyReply() == PackKey(env.key.pub, env.key.chain)
      ensures unchanged(`pending) && unchanged(`history)
    {
      hide DispatchSign, DispatchGetPublicKey, Layout, Repr, KeyReply, PackKey;
      if cmd.cla != CLA {
        return Status(InvalidCla);
      }
      if cmd.ins == GET_VERSION || cmd.ins == GET_APP_NAME {
        if cmd.p1 != 0 || cmd.p2 != 0 {
          return Status(IncorrectP1P2);
        }
        return Info(cmd.ins);
      } else if cmd.ins == GET_PUBLIC_KEY {
        out := RouteGetPublicKey(cmd, env.key);
      } else if cmd.ins == SIGN_TX || cmd.ins == SIGN_TOKEN_TX {
        out := RouteSign(cmd, env.fault);
      } else if cmd.ins == PROVIDE_TOKEN_INFO {
        if cmd.p1 != 0 || cmd.p2 != 0 {
          return Status(IncorrectP1P2);
        }
        if cmd.data == [] {
          return Status(WrongDataLength);
        }
        return Status(if env.tokenOk then Success else InvalidDynamicToken);
      } else {
        return Status(InvalidIns);
      }
    }

    /** apdu_dispatcher on one received command, as the next step of the run. */
    method Dispatcher(cmd: Command, env: Env) returns (out: Output)
      requires Valid() && pending.Idle?
      modifies Repr()
      ensures Valid() && history == old(history) + [Apdu(cmd, env)] && pending == PendingOf(out, env)
      ensures (Device(Ctx(), pending), out) == Step(crypto, old(Device(Ctx(), pending)), Apdu(cmd, env))
    {
      hide After, Legal, Dispatch;
      ghost var s, e := Device(Ctx(), pending), Apdu(cmd, env);
      out := Route(cmd, env);
      pending := PendingOf(out, env);
      Extend(s, e);
      history := history + [e];
    }

    // ---- answering a review ----

    method SignMessage(signOk: bool) returns (ok: bool)
      requires Shape()
      modifies this`signatureLen, this`v, signature
      ensures ok == signOk
      ensures ok ==> signatureLen == 64 && v == 0 && signature[..64] == crypto.sign(Path(bip32PathLen, bip32Path[..]), mHash)
    {
      if !signOk {
        return false;
      }
      var path := Path(bip32PathLen, bip32Path[..]);
      var sig := crypto.sign(path, mHash);
      forall i | 0 <= i < |sig| {
        signature[i] := sig[i];
      }
      assert path.words == bip32Path[..];
      signatureLen, v := |sig|, 0;
      return true;
    }

    /** helper_send_response_sig: length, signature and v, packed with a running offset. */
    method SendResponseSig() returns (data: Bytes)
      requires Shape() && signatureLen <= MAX_DER_SIG_LEN
      ensures data == [signatureLen] + signature[..signatureLen] + [v]
    {
      var resp := new byte[1 + MAX_DER_SIG_LEN + 1](_ => 0);
      var offset := 0;
      resp[offset] := signatureLen;
      offset := offset + 1;
      Move(resp, offset, At(signature, 0), signatureLen);
      offset := offset + signatureLen;
      resp[offset] := v;
      offset := offset + 1;
      data := resp[..offset];
    }

    method ValidateTransaction(confirm: bool, signOk: bool) returns (out: Output)
      requires Shape()
      modifies this`state, this`signatureLen, this`v, signature
      ensures Shape() && (Ctx(), out) == old(Validate(crypto, Ctx(), confirm, signOk))
    {
      if !confirm {
        state := StateNone;
        return Status(ConditionsNotSatisfied);
      }
      state := StateApproved;
      var ok := SignMessage(signOk);
      if !ok {
        state := StateNone;
        return Status(SecurityIssue);
      }
      var data := SendResponseSig();
      return Signed(data);
    }

    method ValidatePubkey(confirm: bool) returns (out: Output)
      requires Shape()
      ensures out == if confirm then PublicKey(KeyReply()) else Status(ConditionsNotSatisfied)
    {
      if !confirm {
        return Status(ConditionsNotSatisfied);
      }
      var reply := SendResponsePubkey();
      return PublicKey(reply);
    }

    /** The callback of the pending review, as the next step of the run. */
    method Answer(confirm: bool, signOk: bool) returns (out: Output)
      requires Valid() && !pending.Idle?
      modifies Repr()
      ensures Valid() && pending.Idle? && history == old(history) + [Choice(confirm, signOk)]
      ensures (Device(Ctx(), pending), out) == Step(crypto, old(Device(Ctx(), pending)), Choice(confirm, signOk))
    {
      hide Dispatch, Validate, After, Legal;
      ghost var s, e := Device(Ctx(), pending), Choice(confirm, signOk);
      match pending {
        case OnEmail =>
          out := ValidateTransaction(confirm, signOk);
        case OnAddress(_) =>
          out := ValidatePubkey(confirm);
      }
      pending := Idle;
      Extend(s, e);
      history := history + [e];
    }

    /** A command that apdu_parser refuses. */
    method BadLength() returns (out: Output)
      requires Valid() && pending.Idle?
      modifies this`history
      ensures Valid() && history == old(history) + [Garbled]
      ensures out == Step(crypto, old(Device(Ctx(), pending)), Garbled).1
    {
      Extend(Device(Ctx(), pending), Garbled);
      history := history + [Garbled];
      return Status(WrongDataLength);
    }

    /** One turn of the loop of app_main, or the callback of a review. */
    method Receive(e: Event) returns (out: Output)
      requires Valid() && Enabled(Device(Ctx(), pending), e)
      modifies Repr()
      ensures Valid() && history == old(history) + [e]
      ensures out == Step(crypto, old(Device(Ctx(), pending)), e).1
    {
      hide Step, Valid, Shape, Ctx;
      match e
      case Garbled => out := BadLength();
      case Apdu(cmd, env) => out := Dispatcher(cmd, env);
      case Choice(confirm, signOk) => out := Answer(confirm, signOk);
    }
  }

  /**
   Output i is the signature, under the session's path, of the digest of the well-formed email that is read from the
   screen shown just before.
   */
  ghost predicate SignsWhatWasShown(c: Crypto, es: seq<Event>, outs: seq<Output>, i: nat)
    requires i < |outs| == |es|
  {
    && i >= 1 && es[i] == Choice(true, true) && outs[i - 1].EmailReview? && JournalOf(es[..i]).Open?
    && ReadScreen(outs[i - 1].screen).Some?
    && var e := ReadScreen(outs[i - 1].screen).value;
    && Valid(e) && ScreenOf(e) == outs[i - 1].screen
    && outs[i] == Signed(PackSignature(c.sign(PathOf(JournalOf(es[..i]).start), c.sha256(Encode(e)))))
  }

  lemma OutputsAreSafe(c: Crypto, es: seq<Event>)
    requires Legal(c, START, es)
    ensures forall i :: 0 <= i < |es| && Outputs(c, START, es)[i].Signed? ==>
              SignsWhatWasShown(c, es, Outputs(c, START, es), i)
  {
    hide Step, After, Legal, Outputs, Out, ScreenOf, ReadScreen, Encode, Valid, PathOf, JournalOf, Flatten,
         PackSignature;
    forall i | 0 <= i < |es| && Outputs(c, START, es)[i].Signed?
      ensures SignsWhatWasShown(c, es, Outputs(c, START, es), i)
    {
      OutputsAt(c, START, es, i);
      SignatureCoversScreen(c, es, i);
      OutputsAt(c, START, es, i - 1);
    }
  }

  /**
   app_main on the events it receives until the transport ends: one output each, those of the run. Whatever is
   received, a signature follows the review of an email and signs the digest of that email's encoding.
   */
  method AppMain(crypto: Crypto, events: seq<Event>) returns (outs: seq<Output>)
    requires Legal(crypto, START, events)
    ensures outs == Outputs(crypto, START, events)
    ensures forall i :: 0 <= i < |outs| && outs[i].Signed? ==> SignsWhatWasShown(crypto, events, outs, i)
  {
    hide Step, After, Legal, Outputs, SignsWhatWasShown, App.Shape, App.Layout;
    OutputsNothing(crypto, START);
    var app := new App(crypto);
    outs := [];
    for i := 0 to |events|
      invariant app.Valid() && app.crypto == crypto && app.history == events[..i] && fresh(app.Repr())
      invariant outs == Outputs(crypto, START, events[..i])
    {
      LegalAt(crypto, START, events, i);
      var out := app.Receive(events[i]);
      OutputsSnoc(crypto, START, events[..i], events[i]);
      assert events[..i] + [events[i]] == events[..i + 1];
      outs := outs + [out];
    }
    assert events[..|events|] == events;
    OutputsAreSafe(crypto, events);
  }
}
