/**
 The host side: the payload encoder (tests/application_client/email_payload.py), the chunker
 (tests/application_client/boilerplate_command_sender.py) and the response unpacker
 (tests/application_client/boilerplate_response_unpacker.py).
 */
module Host {
  import opened ByteString
  import opened Wire
  import opened WireTheorems
  import opened Layout
  import opened Screen
  import opened Session
  import opened Runs

  // ---- the encoder ----

  datatype HostAttachment = HostAttachment(name: string, size: int, sha256Hex: string)

  datatype HostEmail = HostEmail(
    challenge: Bytes, sender: string, recipient: string, subject: string, body: string,
    attachment: Option<HostAttachment>)

  predicate IsAscii(s: string) {
    forall i :: 0 <= i < |s| ==> s[i] as int < 0x80
  }

  function Ascii(s: string): (b: Bytes)
    requires IsAscii(s)
    ensures |b| == |s| && forall i :: 0 <= i < |s| ==> b[i] == s[i] as int
  {
    if s == "" then [] else Ascii(s[..|s| - 1]) + [s[|s| - 1] as int]
  }

  function Nibble(c: char): (r: Option<nat>)
    ensures r.Some? ==> r.value < 16
  {
    if '0' <= c <= '9' then Some(c as int - '0' as int)
    else if 'a' <= c <= 'f' then Some(c as int - 'a' as int + 10)
    else if 'A' <= c <= 'F' then Some(c as int - 'A' as int + 10)
    else None
  }

  /** Py_ISSPACE: tab, newline, vertical tab, form feed, carriage return and space. */
  predicate IsBlank(c: char) {
    c == ' ' || 9 <= c as int <= 13
  }

  /** bytes.fromhex: pairs of digits, with any blanks before, between and after the pairs. */
  function FromHex(s: string): (r: Option<Bytes>)
    ensures r.Some? ==> 2 * |r.value| <= |s|
  {
    if s == "" then Some([])
    else if IsBlank(s[|s| - 1]) then FromHex(s[..|s| - 1])
    else if |s| == 1 then None
    else
      var front := FromHex(s[..|s| - 2]);
      var high, low := Nibble(s[|s| - 2]), Nibble(s[|s| - 1]);
      if front.None? || high.None? || low.None? then None
      else Some(front.value + [16 * high.value + low.value])
  }

  predicate EncodableFile(a: HostAttachment) {
    && IsAscii(a.name) && 1 <= |a.name| <= MAX_ATT_NAME_LEN
    && 0 <= a.size < 0x1_0000_0000 && FromHex(a.sha256Hex).Some?
  }

  /** The lengths and encodings that the encoder asserts; outside them it raises. */
  predicate Encodable(h: HostEmail) {
    && |h.challenge| == CHALLENGE_LEN
    && IsAscii(h.sender) && 1 <= |h.sender| <= MAX_FROM_LEN
    && IsAscii(h.recipient) && 1 <= |h.recipient| <= MAX_TO_LEN
    && IsAscii(h.subject) && 1 <= |h.subject| <= MAX_SUBJECT_LEN
    && IsAscii(h.body) && 1 <= |h.body| <= MAX_BODY_LEN
    && (h.attachment.Some? ==> EncodableFile(h.attachment.value))
  }

  function SerializeFile(a: HostAttachment): Bytes
    requires EncodableFile(a)
  {
    [1, |a.name|] + Ascii(a.name) + U32be(a.size) + FromHex(a.sha256Hex).value
  }

  function SerializeText(s: string): Bytes
    requires IsAscii(s) && |s| < 0x100
  {
    [|s|] + Ascii(s)
  }

  function Payload(h: HostEmail): Bytes
    requires Encodable(h)
  {
    h.challenge + SerializeText(h.sender) + SerializeText(h.recipient) + SerializeText(h.subject)
    + U16be(|h.body|) + Ascii(h.body)
    + (match h.attachment case None => [0] case Some(a) => SerializeFile(a))
  }

  /** Email.serialize: nothing when an assertion or a conversion raises. */
  function Serialize(h: HostEmail): Option<Bytes> {
    if Encodable(h) then Some(Payload(h)) else None
  }

  /** The same email in the device's terms. */
  function EmailFor(h: HostEmail): (e: Email)
    requires Encodable(h)
    ensures Sized(e)
  {
    Email(h.challenge, Ascii(h.sender), Ascii(h.recipient), Ascii(h.subject), Ascii(h.body),
          match h.attachment
          case None => None
          case Some(a) => Some(Attachment(Ascii(a.name), a.size, FromHex(a.sha256Hex).value)))
  }

  predicate Printable(s: string, newline: bool) {
    forall i :: 0 <= i < |s| ==> ' ' <= s[i] <= '~' || (newline && s[i] == '\n')
  }

  /** How many characters of a hexadecimal text are not blanks. */
  function Digits(s: string): nat {
    if s == "" then 0 else Digits(s[..|s| - 1]) + if IsBlank(s[|s| - 1]) then 0 else 1
  }

  lemma NibbleIsNotBlank(c: char)
    requires Nibble(c).Some?
    ensures !IsBlank(c)
  {
  }

  lemma {:induction false} FromHexLength(s: string)
    requires FromHex(s).Some?
    ensures Digits(s) == 2 * |FromHex(s).value|
  {
    hide Nibble;
    if s == "" {
    } else if IsBlank(s[|s| - 1]) {
      FromHexLength(s[..|s| - 1]);
    } else {
      var front := s[..|s| - 2];
      FromHexLength(front);
      NibbleIsNotBlank(s[|s| - 2]);
      assert s[..|s| - 1][..|s| - 2] == front;
    }
  }

  /** What the device asks for beyond what the encoder asserts. */
  predicate Renderable(h: HostEmail) {
    && Printable(h.sender, false) && Printable(h.recipient, false) && Printable(h.subject, false)
    && Printable(h.body, true)
    && (h.attachment.Some? ==>
          && Printable(h.attachment.value.name, false)
          && Digits(h.attachment.value.sha256Hex) == 2 * ATT_HASH_LEN)
  }

  lemma PrintableIsTextOk(s: string, newline: bool)
    requires IsAscii(s)
    ensures Printable(s, newline) <==> TextOk(Ascii(s), newline)
  {
    var b := Ascii(s);
    assert forall i :: 0 <= i < |s| ==> b[i] == s[i] as int;
    if TextOk(b, newline) {
      forall i | 0 <= i < |s|
        ensures ' ' <= s[i] <= '~' || (newline && s[i] == '\n')
      {
        assert Allowed(b[i], newline);
      }
    }
  }

  lemma RenderableIsValid(h: HostEmail)
    requires Encodable(h)
    ensures Renderable(h) <==> Valid(EmailFor(h))
  {
    hide Printable, TextOk, Ascii, FromHex;
    PrintableIsTextOk(h.sender, false);
    PrintableIsTextOk(h.recipient, false);
    PrintableIsTextOk(h.subject, false);
    PrintableIsTextOk(h.body, true);
    if h.attachment.Some? {
      PrintableIsTextOk(h.attachment.value.name, false);
      FromHexLength(h.attachment.value.sha256Hex);
    }
  }

  /** The encoder writes the wire format of the device. */
  lemma PayloadIsEncode(h: HostEmail)
    requires Encodable(h)
    ensures Payload(h) == Encode(EmailFor(h))
  {
    hide Ascii, FromHex, U16be, U32be, IsAscii;
    var front := h.challenge + SerializeText(h.sender) + SerializeText(h.recipient) + SerializeText(h.subject);
    var file := AttachmentField(EmailFor(h).attachment);
    assert front + U16be(|h.body|) + Ascii(h.body) + file == front + (U16be(|h.body|) + Ascii(h.body)) + file;
    if h.attachment.Some? {
      var a := h.attachment.value;
      assert SerializeFile(a) == file;
    }
  }

  /** The characters of s stand in b from position `at` on. */
  predicate Spells(b: Bytes, at: nat, s: string) {
    at + |s| <= |b| && forall i :: 0 <= i < |s| ==> b[at + i] == s[i] as int
  }

  lemma SliceSpells(b: Bytes, at: nat, s: string)
    requires IsAscii(s) && at + |s| <= |b| && b[at..at + |s|] == Ascii(s)
    ensures Spells(b, at, s)
  {
    forall i | 0 <= i < |s|
      ensures b[at + i] == s[i] as int
    {
      assert b[at + i] == b[at..at + |s|][i];
    }
  }

  /** Where the encoder writes the header. */
  lemma PayloadHeader(h: HostEmail)
    requires Encodable(h)
    ensures var b, to := Payload(h), 17 + |h.sender|;
            var subject := to + 1 + |h.recipient|;
            && |b| > subject + 1 + |h.subject|
            && b[..16] == h.challenge
            && b[16] == |h.sender| && Spells(b, 17, h.sender)
            && b[to] == |h.recipient| && Spells(b, to + 1, h.recipient)
            && b[subject] == |h.subject| && Spells(b, subject + 1, h.subject)
  {
    hide Payload, Encode, Ascii, FromHex, Spells, IsAscii;
    PayloadIsEncode(h);
    HeaderLayout(EmailFor(h));
    BodyLayout(EmailFor(h));
    var b, to := Payload(h), 17 + |h.sender|;
    var subject := to + 1 + |h.recipient|;
    SliceSpells(b, 17, h.sender);
    SliceSpells(b, to + 1, h.recipient);
    SliceSpells(b, subject + 1, h.subject);
  }

  /** Where it writes the body and the attachment: a 2-byte length, a 4-byte size, most significant byte first. */
  lemma PayloadTail(h: HostEmail)
    requires Encodable(h)
    ensures var b, body := Payload(h), 21 + |h.sender| + |h.recipient| + |h.subject|;
            var a := body + |h.body|;
            && |b| > a
            && 0x100 * (b[body - 2] as int) + b[body - 1] == |h.body| && Spells(b, body, h.body)
            && (h.attachment.None? ==> |b| == a + 1 && b[a] == 0)
            && (h.attachment.Some? ==>
                  var f := h.attachment.value;
                  var size := a + 2 + |f.name|;
                  && |b| >= size + 4 && b[a] == 1
                  && b[a + 1] == |f.name| && Spells(b, a + 2, f.name)
                  && 0x100_0000 * (b[size] as int) + 0x1_0000 * (b[size + 1] as int)
                     + 0x100 * (b[size + 2] as int) + b[size + 3] == f.size
                  && FromHex(f.sha256Hex) == Some(b[size + 4..]))
  {
    hide Payload, Encode, Ascii, FromHex, Spells, IsAscii;
    PayloadIsEncode(h);
    BodyLayout(EmailFor(h));
    if h.attachment.Some? {
      FileLayout(EmailFor(h));
    }
    var b, body := Payload(h), 21 + |h.sender| + |h.recipient| + |h.subject|;
    SliceSpells(b, body, h.body);
    if h.attachment.Some? {
      SliceSpells(b, body + |h.body| + 2, h.attachment.value.name);
    }
  }

  /**
   The encoder and the device do not agree on every email: the device accepts what the encoder writes
   exactly when the text is printable, the attachment hash is 32 bytes and the whole fits the cap.
   */
  lemma HostDeviceAgreement(h: HostEmail)
    requires Encodable(h)
    ensures Accepted(Payload(h)) <==> Renderable(h) && |Payload(h)| <= MAX_TX_LEN
    ensures Accepted(Payload(h)) ==> Decode(Payload(h)) == EmailFor(h)
  {
    hide Encodable, Renderable, Payload, EmailFor, Encode, Valid, StatusOf;
    PayloadIsEncode(h);
    RenderableIsValid(h);
    EncodingAcceptedIff(EmailFor(h));
  }

  // ---- the encoder reaches every accepted payload ----

  function Chars(b: Bytes): (s: string)
    requires TextOk(b, true)
    ensures |s| == |b| && forall i :: 0 <= i < |b| ==> s[i] as int == b[i]
  {
    if b == [] then ""
    else
      assert Allowed(b[|b| - 1], true);
      Chars(b[..|b| - 1]) + [b[|b| - 1] as char]
  }

  lemma AsciiOfChars(b: Bytes)
    requires TextOk(b, true)
    ensures IsAscii(Chars(b)) && Ascii(Chars(b)) == b
  {
    assert forall i :: 0 <= i < |b| ==> Allowed(b[i], true);
  }

  function LowerDigit(n: nat): (c: char)
    requires n < 16
    ensures Nibble(c) == Some(n)
  {
    "0123456789abcdef"[n]
  }

  /** hexdigest: lower-case digits. */
  function HexDigest(b: Bytes): (s: string)
    ensures |s| == 2 * |b|
  {
    if b == [] then ""
    else HexDigest(b[..|b| - 1]) + [LowerDigit(b[|b| - 1] / 16), LowerDigit(b[|b| - 1] % 16)]
  }

  /** The digits of byte i, the one that counts sixteen first. */
  lemma {:induction false} HexDigestAt(b: Bytes, i: nat)
    requires i < |b|
    ensures HexDigest(b)[2 * i] == "0123456789abcdef"[b[i] / 16]
    ensures HexDigest(b)[2 * i + 1] == "0123456789abcdef"[b[i] % 16]
  {
    if i < |b| - 1 {
      HexDigestAt(b[..|b| - 1], i);
    }
  }

  lemma FromHexPair(s: string, front: Bytes, last: byte)
    requires |s| >= 2 && FromHex(s[..|s| - 2]) == Some(front)
    requires Nibble(s[|s| - 2]) == Some(last / 16) && Nibble(s[|s| - 1]) == Some(last % 16)
    ensures FromHex(s) == Some(front + [last])
  {
    NibbleIsNotBlank(s[|s| - 1]);
    hide Nibble, IsBlank;
  }

  lemma FromHexNothing()
    ensures FromHex("") == Some([])
  {
  }

  lemma {:induction false} FromHexDigest(b: Bytes)
    ensures FromHex(HexDigest(b)) == Some(b)
  {
    hide Nibble, LowerDigit, FromHex;
    if b == [] {
      FromHexNothing();
    } else {
      var front, last := b[..|b| - 1], b[|b| - 1];
      var s := HexDigest(b);
      FromHexDigest(front);
      assert s[..|s| - 2] == HexDigest(front);
      assert s[|s| - 2] == LowerDigit(last / 16) && s[|s| - 1] == LowerDigit(last % 16);
      FromHexPair(s, front, last);
      assert front + [last] == b;
    }
  }

  lemma HexIsText(b: Bytes)
    ensures TextOk(Hex(b), true)
  {
  }

  lemma NibbleOfDigit(n: nat, c: char)
    requires n < 16 && c as int == HexDigit(n)
    ensures Nibble(c) == Some(n)
  {
  }

  /** The last two characters shown are the digits of the last byte. */
  lemma ShownPair(b: Bytes)
    requires b != [] && TextOk(Hex(b), true) && TextOk(Hex(b[..|b| - 1]), true)
    ensures var s := Chars(Hex(b));
            && s[..|s| - 2] == Chars(Hex(b[..|b| - 1]))
            && Nibble(s[|s| - 2]) == Some(b[|b| - 1] / 16) && Nibble(s[|s| - 1]) == Some(b[|b| - 1] % 16)
  {
    var front, last, h := b[..|b| - 1], b[|b| - 1], Hex(b);
    var s, t := Chars(h), Chars(Hex(front));
    NibbleOfDigit(last / 16, s[|s| - 2]);
    NibbleOfDigit(last % 16, s[|s| - 1]);
    hide Chars, Nibble, HexDigit, TextOk;
    assert h == Hex(front) + [HexDigit(last / 16), HexDigit(last % 16)];
    forall i | 0 <= i < |t|
      ensures s[i] == t[i]
    {
      assert s[i] as int == h[i] == Hex(front)[i] == t[i] as int;
    }
  }

  lemma NothingShown()
    ensures Hex([]) == [] && TextOk([], true) && Chars([]) == ""
  {
  }

  /** The digits shown for a byte string are its hexadecimal reading: the host can read them back. */
  lemma {:induction false} ShownHexReadsBack(b: Bytes)
    ensures TextOk(Hex(b), true) && FromHex(Chars(Hex(b))) == Some(b)
  {
    hide Chars, Hex, TextOk, Nibble, FromHex;
    HexIsText(b);
    if b == [] {
      FromHexNothing();
      NothingShown();
    } else {
      var front, last := b[..|b| - 1], b[|b| - 1];
      HexIsText(front);
      ShownHexReadsBack(front);
      ShownPair(b);
      var s := Chars(Hex(b));
      assert |s| >= 2;
      FromHexPair(s, front, last);
      assert front + [last] == b;
    }
  }

  function HostFor(e: Email): HostEmail
    requires Valid(e)
  {
    HostEmail(e.challenge, Chars(e.from), Chars(e.to), Chars(e.subject), Chars(e.body),
              match e.attachment
              case None => None
              case Some(a) => Some(HostAttachment(Chars(a.name), a.size, HexDigest(a.hash))))
  }

  lemma HostForIsEncodable(e: Email)
    requires Valid(e)
    ensures Encodable(HostFor(e)) && EmailFor(HostFor(e)) == e
  {
    hide Chars, Ascii, IsAscii, HexDigest, FromHex;
    AsciiOfChars(e.from);
    AsciiOfChars(e.to);
    AsciiOfChars(e.subject);
    AsciiOfChars(e.body);
    if e.attachment.Some? {
      AsciiOfChars(e.attachment.value.name);
      FromHexDigest(e.attachment.value.hash);
    }
  }

  /** An encodable email that the device refuses for a control character. */
  lemma TabRefused() returns (h: HostEmail)
    ensures Encodable(h) && '\t' in h.subject && h.attachment.None? && !Accepted(Payload(h))
  {
    h := HostEmail(Zeros(CHALLENGE_LEN), "a", "b", "\t", "c", None);
    assert h.subject[0] == '\t';
    HostDeviceAgreement(h);
  }

  /** One refused for the length of its attachment hash. */
  lemma ShortHashRefused() returns (h: HostEmail)
    ensures Encodable(h) && h.attachment.Some? && FromHex(h.attachment.value.sha256Hex) == Some([])
    ensures |Payload(h)| <= MAX_TX_LEN && !Accepted(Payload(h))
  {
    h := HostEmail(Zeros(CHALLENGE_LEN), "a", "b", "s", "c", Some(HostAttachment("f", 0, "")));
    HostDeviceAgreement(h);
  }

  /** One refused for the cap alone: every field is at its maximum. */
  lemma LongRefused() returns (h: HostEmail)
    ensures Encodable(h) && Renderable(h) && |Payload(h)| == 2627 && !Accepted(Payload(h))
  {
    hide HostFor, EmailFor, Payload, Encode, Valid, Encodable, Renderable, StatusOf;
    var plain, heavy := AcceptanceIsTight();
    h := HostFor(heavy);
    HostForIsEncodable(heavy);
    RenderableIsValid(h);
    PayloadIsEncode(h);
  }

  /** Every payload the device accepts is written by the encoder from the email it carries. */
  lemma AcceptedIsSerialized(b: Bytes)
    requires Accepted(b)
    ensures Serialize(HostFor(Decode(b))) == Some(b)
  {
    hide StatusOf, HostFor, EmailFor, Payload, Encode, Valid, Encodable;
    HostForIsEncodable(Decode(b));
    PayloadIsEncode(HostFor(Decode(b)));
  }

  // ---- the chunker ----

  const MAX_APDU_LEN := 255

  function SplitMessage(m: Bytes, max: nat): (cs: seq<Bytes>)
    requires max >= 1
    ensures forall i :: 0 <= i < |cs| ==> 1 <= |cs[i]| <= max
    ensures cs == [] <==> m == []
  {
    if m == [] then []
    else if |m| <= max then [m]
    else [m[..max]] + SplitMessage(m[max..], max)
  }

  lemma {:induction false} FlattenCons(c: Bytes, cs: seq<Bytes>)
    ensures Flatten([c] + cs) == c + Flatten(cs)
  {
    if cs == [] {
      assert [c] + cs == [c];
      assert [c][..0] == [];
    } else {
      FlattenCons(c, cs[..|cs| - 1]);
      assert ([c] + cs)[..|cs|] == [c] + cs[..|cs| - 1];
    }
  }

  lemma FlattenOne(c: Bytes)
    ensures Flatten([c]) == c
  {
    assert [c][..0] == [];
  }

  lemma OneLess(k: nat, max: nat)
    requires k >= 1
    ensures (k - 1) * max == k * max - max
  {
  }

  /** All chunks but the last are full, and the last is not empty. */
  lemma {:induction false} SplitCount(m: Bytes, max: nat)
    requires max >= 1 && m != []
    ensures var n := |SplitMessage(m, max)|;
            n >= 1 && n * max - max < |m| <= n * max
  {
    if |m| > max {
      SplitCount(m[max..], max);
      OneLess(|SplitMessage(m, max)|, max);
    }
  }

  lemma SplitSteps(m: Bytes, max: nat)
    requires max >= 1 && m != []
    ensures SplitMessage(m, max) == if |m| <= max then [m] else [m[..max]] + SplitMessage(m[max..], max)
  {
  }

  /** Chunk k is the slice of the message from k times the size on. */
  lemma {:induction false} SplitAt(m: Bytes, max: nat, k: nat, from: nat)
    requires max >= 1 && k < |SplitMessage(m, max)| && from == k * max
    ensures from < |m|
    ensures SplitMessage(m, max)[k] == if from + max < |m| then m[from..from + max] else m[from..]
  {
    hide SplitMessage;
    SplitSteps(m, max);
    if k > 0 {
      var rest, at := m[max..], from - max;
      OneLess(k, max);
      SplitAt(rest, max, k - 1, at);
      assert rest[at..] == m[from..];
      assert from + max < |m| ==> rest[at..at + max] == m[from..from + max];
    }
  }

  /** The first k chunks are the front of the message. */
  lemma {:induction false} SplitFront(m: Bytes, max: nat, k: nat, len: nat)
    requires max >= 1 && k <= |SplitMessage(m, max)| && len == k * max
    ensures Flatten(SplitMessage(m, max)[..k]) == if len <= |m| then m[..len] else m
  {
    hide Flatten;
    var cs := SplitMessage(m, max);
    if k == 0 {
      FlattenNothing();
      assert cs[..0] == [];
    } else if |m| <= max {
      FlattenOne(m);
      assert cs[..k] == [m];
    } else {
      var rest, left := SplitMessage(m[max..], max), len - max;
      OneLess(k, max);
      SplitFront(m[max..], max, k - 1, left);
      FlattenCons(m[..max], rest[..k - 1]);
      assert cs[..k] == [m[..max]] + rest[..k - 1];
      if len <= |m| {
        assert m[..len] == m[..max] + m[max..][..left];
      }
    }
  }

  /** The chunks are the message, cut: nothing lost, nothing reordered. */
  lemma SplitIsWhole(m: Bytes, max: nat)
    requires max >= 1
    ensures Flatten(SplitMessage(m, max)) == m
  {
    var cs := SplitMessage(m, max);
    var len := |cs| * max;
    SplitFront(m, max, |cs|, len);
    assert cs[..|cs|] == cs;
    if m != [] {
      SplitCount(m, max);
      assert len == |m| ==> m[..len] == m;
    }
  }

  /** The chunk at which the capacity of the device is reached. */
  const MAX_CHUNKS := 11

  /** A payload within the cap takes at most eleven chunks, so P1 never reaches P1_MAX. */
  lemma SplitFitsP1(m: Bytes)
    requires |m| <= MAX_TX_LEN
    ensures |SplitMessage(m, MAX_APDU_LEN)| <= MAX_CHUNKS < P1_MAX
  {
    if m != [] {
      SplitCount(m, MAX_APDU_LEN);
    }
  }

  /** The first n chunk commands of a cut, with P1 counting from one and P2_LAST on the last chunk. */
  function ChunkEvents(token: bool, cs: seq<Bytes>, n: nat, env: Env): (es: seq<Event>)
    requires n <= |cs| && n < 0x100
    ensures |es| == n
    ensures forall k :: 0 <= k < n ==> es[k] == Apdu(SignCommand(token, k + 1, k + 1 < |cs|, cs[k]), env)
  {
    if n == 0 then []
    else ChunkEvents(token, cs, n - 1, env) + [Apdu(SignCommand(token, n, n < |cs|, cs[n - 1]), env)]
  }

  /** What _sign_transaction sends: chunk 0 with the path, then the chunks, up to the one the device has no room for. */
  function HostEvents(token: bool, p: seq<u32>, payload: Bytes, env: Env): seq<Event>
    requires ValidPath(p)
  {
    var cs := SplitMessage(payload, MAX_APDU_LEN);
    [Apdu(SignCommand(token, P1_START, true, PackPath(p)), env)]
    + ChunkEvents(token, cs, if |cs| < MAX_CHUNKS then |cs| else MAX_CHUNKS, env)
  }

  /** How many commands the host sends. */
  lemma HostCommandCount(token: bool, p: seq<u32>, payload: Bytes, env: Env)
    requires ValidPath(p)
    ensures |HostEvents(token, p, payload, env)| == if |payload| > 2550 then 12 else 1 + (|payload| + 254) / 255
  {
    hide PackPath, SplitMessage;
    if payload != [] {
      SplitCount(payload, MAX_APDU_LEN);
    }
  }

  /** The data of command k, and whether more follow. */
  lemma SliceOfCommand(payload: Bytes, k: nat)
    requires 1 <= k <= |SplitMessage(payload, MAX_APDU_LEN)|
    ensures var cs := SplitMessage(payload, MAX_APDU_LEN);
            && 255 * (k - 1) < |payload| && (k < |cs| <==> 255 * k < |payload|)
            && cs[k - 1] == if 255 * k < |payload| then payload[255 * (k - 1)..255 * k] else payload[255 * (k - 1)..]
  {
    SplitAt(payload, MAX_APDU_LEN, k - 1, 255 * (k - 1));
    SplitCount(payload, MAX_APDU_LEN);
  }

  /**
   The host's commands in the numbers of the protocol: the first one carries the path, command k the slice of 255
   bytes that ends at 255 k or what is left; P1 counts up, and P2 is 0x80 on all but the last.
   */
  lemma HostCommandIs(token: bool, p: seq<u32>, payload: Bytes, env: Env, k: nat)
    requires ValidPath(p) && k < |HostEvents(token, p, payload, env)|
    ensures var e, ins := HostEvents(token, p, payload, env)[k], if token then 0x07 else 0x06;
            if k == 0 then e == Apdu(Command(0xE0, ins, 0, 0x80, PackPath(p)), env)
            else
              && 255 * (k - 1) < |payload|
              && e == if 255 * k < |payload|
                      then Apdu(Command(0xE0, ins, k, 0x80, payload[255 * (k - 1)..255 * k]), env)
                      else Apdu(Command(0xE0, ins, k, 0x00, payload[255 * (k - 1)..]), env)
  {
    hide PackPath, SplitMessage;
    if k > 0 {
      SliceOfCommand(payload, k);
    }
  }

  // ---- the unpacker ----

  /** buffer[from:to] with bounds clamped as Python does. */
  function Clamp(b: Bytes, from: nat, to: nat): Bytes {
    var hi := if to < |b| then to else |b|;
    if from < hi then b[from..hi] else []
  }

  /** A length-prefixed buffer and what follows it; nothing when the prefix is missing. */
  function PopPrefixed(b: Bytes): Option<(Bytes, byte, Bytes)> {
    if b == [] then None else Some((Clamp(b, 1 + b[0] as int, |b|), b[0], Clamp(b, 1, 1 + b[0] as int)))
  }

  function UnpackSignature(response: Bytes): Option<(byte, Bytes, nat)> {
    match PopPrefixed(response)
    case None => None
    case Some((rest, len, sig)) =>
      if Clamp(rest, 1, |rest|) != [] then None
      else Some((len, sig, if rest == [] then 0 else rest[0]))
  }

  function UnpackPublicKey(response: Bytes): Option<(Bytes, Bytes)> {
    match PopPrefixed(response)
    case None => None
    case Some((rest, keyLen, key)) =>
      match PopPrefixed(rest)
      case None => None
      case Some((rest', chainLen, chain)) =>
        if keyLen == PUBKEY_LEN && chainLen == CHAINCODE_LEN && rest' == [] then Some((key, chain)) else None
  }

  /** The layout of both replies, and the unpackers undo it. */
  lemma UnpackPacked(sig: Signature, pub: PubKey, chain: ChainCode)
    ensures var r := PackSignature(sig);
            |r| == 66 && r[0] == 64 && r[1..65] == sig && r[65] == 0
    ensures var k := PackKey(pub, chain);
            |k| == 99 && k[0] == 65 && k[1..66] == pub && k[66] == 32 && k[67..99] == chain
    ensures UnpackSignature(PackSignature(sig)) == Some((64, sig, 0))
    ensures UnpackPublicKey(PackKey(pub, chain)) == Some((pub, chain))
  {
    var r := PackSignature(sig);
    assert r[1..65] == sig && r[65..66] == [0];
    var k := PackKey(pub, chain);
    assert k[1..66] == pub;
    var t := k[66..99];
    assert t == [CHAINCODE_LEN] + chain && t[1..33] == chain;
  }
}
