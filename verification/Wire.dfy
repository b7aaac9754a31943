/**
 The email payload of src/transaction/tx_types.h: what a well-formed email is, how it is
 written, and how the parser reads it.

 An email is six parts in a fixed order (challenge, from, to, subject, body, attachment).
 Each part has an encoding and a reader. `ReadEncoded` and `ReadSound` say that the reader
 of a part is the exact inverse of its encoding on the front of any byte string; everything
 else in this module follows from these two facts by induction over the parts.
 */
module Wire {
  import opened ByteString

  const MAX_TX_LEN := 2600
  const CHALLENGE_LEN := 16
  const MAX_FROM_LEN := 128
  const MAX_TO_LEN := 128
  const MAX_SUBJECT_LEN := 200
  const MAX_BODY_LEN := 2048
  const MAX_ATT_NAME_LEN := 64
  const ATT_HASH_LEN := 32

  datatype Attachment = Attachment(name: Bytes, size: u32, hash: Bytes)

  datatype Email = Email(
    challenge: Bytes, from: Bytes, to: Bytes, subject: Bytes, body: Bytes,
    attachment: Option<Attachment>)

  datatype ParserStatus =
    | ParsingOk
    | FromParsingError
    | ToParsingError
    | SubjectParsingError
    | BodyParsingError
    | FieldEncodingError
    | ChallengeParsingError
    | WrongLengthError
    | AttachmentParsingError

  // ---- well-formed emails and their encoding ----

  predicate Allowed(c: byte, newline: bool) {
    0x20 <= c <= 0x7e || (newline && c == 0x0a)
  }

  predicate TextOk(t: Bytes, newline: bool) {
    forall i :: 0 <= i < |t| ==> Allowed(t[i], newline)
  }

  predicate ValidText(t: Bytes, max: nat) {
    1 <= |t| <= max && TextOk(t, false)
  }

  predicate ValidBody(t: Bytes) {
    1 <= |t| <= MAX_BODY_LEN && TextOk(t, true)
  }

  predicate ValidAttachment(a: Attachment) {
    ValidText(a.name, MAX_ATT_NAME_LEN) && |a.hash| == ATT_HASH_LEN
  }

  /** The lengths fit their prefixes. Weaker than `Valid`: all that writing an email needs. */
  predicate Sized(e: Email) {
    && |e.challenge| == CHALLENGE_LEN
    && |e.from| < 0x100 && |e.to| < 0x100 && |e.subject| < 0x100 && |e.body| < 0x1_0000
    && (e.attachment.Some? ==> |e.attachment.value.name| < 0x100)
  }

  predicate Valid(e: Email)
    ensures Valid(e) ==> Sized(e)
  {
    && |e.challenge| == CHALLENGE_LEN
    && ValidText(e.from, MAX_FROM_LEN)
    && ValidText(e.to, MAX_TO_LEN)
    && ValidText(e.subject, MAX_SUBJECT_LEN)
    && ValidBody(e.body)
    && (e.attachment.Some? ==> ValidAttachment(e.attachment.value))
  }

  function TextField(t: Bytes): (b: Bytes)
    requires |t| < 0x100
    ensures |b| == 1 + |t|
  {
    [|t|] + t
  }

  function BodyField(t: Bytes): (b: Bytes)
    requires |t| < 0x1_0000
    ensures |b| == 2 + |t|
  {
    U16be(|t|) + t
  }

  function AttachmentField(a: Option<Attachment>): (b: Bytes)
    requires a.Some? ==> |a.value.name| < 0x100
    ensures |b| == if a.None? then 1 else 6 + |a.value.name| + |a.value.hash|
  {
    match a
    case None => [0]
    case Some(f) => [1] + TextField(f.name) + U32be(f.size) + f.hash
  }

  function Encode(e: Email): Bytes
    requires Sized(e)
  {
    e.challenge + TextField(e.from) + TextField(e.to) + TextField(e.subject)
    + BodyField(e.body) + AttachmentField(e.attachment)
  }

  // ---- the six parts ----

  const PARTS := 6

  /** Index of a part: challenge, from, to, subject, body, attachment. */
  type Stage = k: nat | k < PARTS

  datatype Part = Text(text: Bytes) | File(file: Option<Attachment>)

  function MaxLen(k: Stage): nat {
    if k == 1 then MAX_FROM_LEN else if k == 2 then MAX_TO_LEN else MAX_SUBJECT_LEN
  }

  predicate ValidPart(k: Stage, p: Part) {
    if k == 5 then p.File? && (p.file.Some? ==> ValidAttachment(p.file.value))
    else
      && p.Text?
      && if k == 0 then |p.text| == CHALLENGE_LEN
         else if k == 4 then ValidBody(p.text)
         else ValidText(p.text, MaxLen(k))
  }

  function EncodePart(k: Stage, p: Part): (b: Bytes)
    requires ValidPart(k, p)
    ensures b != []
  {
    if k == 0 then p.text
    else if k == 4 then BodyField(p.text)
    else if k == 5 then AttachmentField(p.file)
    else TextField(p.text)
  }

  predicate ValidParts(ps: seq<Part>) {
    |ps| <= PARTS && forall i :: 0 <= i < |ps| ==> ValidPart(i, ps[i])
  }

  function EncodeParts(ps: seq<Part>): Bytes
    requires ValidParts(ps)
  {
    if ps == [] then [] else EncodeParts(ps[..|ps| - 1]) + EncodePart(|ps| - 1, ps[|ps| - 1])
  }

  function PartsOf(e: Email): (ps: seq<Part>)
    requires Valid(e)
    ensures |ps| == PARTS && ValidParts(ps)
  {
    [Text(e.challenge), Text(e.from), Text(e.to), Text(e.subject), Text(e.body), File(e.attachment)]
  }

  function EmailOf(ps: seq<Part>): (e: Email)
    requires |ps| == PARTS && ValidParts(ps)
    ensures Valid(e) && PartsOf(e) == ps
  {
    Email(ps[0].text, ps[1].text, ps[2].text, ps[3].text, ps[4].text, ps[5].file)
  }

  lemma EncodePartsSnoc(ps: seq<Part>, p: Part)
    requires ValidParts(ps + [p])
    ensures ValidParts(ps) && ValidPart(|ps|, p)
    ensures EncodeParts(ps + [p]) == EncodeParts(ps) + EncodePart(|ps|, p)
  {
    var all := ps + [p];
    assert all[..|all| - 1] == ps && all[|ps|] == p;
    assert forall i :: 0 <= i < |ps| ==> ps[i] == all[i];
  }

  lemma EncodeFirstPart(p: Part)
    requires ValidPart(0, p)
    ensures EncodeParts([] + [p]) == p.text
  {
    hide ValidAttachment, ValidText, ValidBody, TextField, BodyField, AttachmentField;
    var ps := [] + [p];
    assert |ps| == 1 && ps[0] == p && ps[..0] == [];
  }

  lemma EncodeIsParts(e: Email)
    requires Valid(e)
    ensures Encode(e) == EncodeParts(PartsOf(e))
  {
    hide EncodeParts, TextField, BodyField, AttachmentField;
    var c, f, t, s := Text(e.challenge), Text(e.from), Text(e.to), Text(e.subject);
    var b, a := Text(e.body), File(e.attachment);
    assert PartsOf(e) == [] + [c] + [f] + [t] + [s] + [b] + [a];
    EncodePartsSnoc([] + [c] + [f] + [t] + [s] + [b], a);
    EncodePartsSnoc([] + [c] + [f] + [t] + [s], b);
    EncodePartsSnoc([] + [c] + [f] + [t], s);
    EncodePartsSnoc([] + [c] + [f], t);
    EncodePartsSnoc([] + [c], f);
    EncodeFirstPart(c);
  }

  // ---- reading one part ----

  datatype Read = Fail | Got(part: Part, rest: Bytes)

  function ReadText(b: Bytes, max: nat): Read {
    if |b| < 1 then Fail
    else
      var n := b[0];
      if n == 0 || n > max || 1 + n > |b| || !TextOk(b[1..1 + n], false) then Fail
      else Got(Text(b[1..1 + n]), b[1 + n..])
  }

  /** The body length prefix is present and in bounds, and that many bytes follow it. */
  predicate BodyFits(b: Bytes) {
    |b| >= 2 && 1 <= ReadU16be(b) <= MAX_BODY_LEN && 2 + ReadU16be(b) <= |b|
  }

  function ReadBody(b: Bytes): Read {
    if !BodyFits(b) then Fail
    else
      var n := ReadU16be(b);
      if TextOk(b[2..2 + n], true) then Got(Text(b[2..2 + n]), b[2 + n..]) else Fail
  }

  function ReadAttachment(b: Bytes): Read {
    if |b| < 1 || b[0] > 1 then Fail
    else if b[0] == 0 then Got(File(None), b[1..])
    else
      match ReadText(b[1..], MAX_ATT_NAME_LEN)
      case Fail => Fail
      case Got(name, t) =>
        if |t| < 4 + ATT_HASH_LEN then Fail
        else Got(File(Some(Attachment(name.text, ReadU32be(t), t[4..4 + ATT_HASH_LEN]))), t[4 + ATT_HASH_LEN..])
  }

  function ReadPart(k: Stage, b: Bytes): Read {
    if k == 0 then
      if |b| < CHALLENGE_LEN then Fail else Got(Text(b[..CHALLENGE_LEN]), b[CHALLENGE_LEN..])
    else if k == 4 then ReadBody(b)
    else if k == 5 then ReadAttachment(b)
    else ReadText(b, MaxLen(k))
  }

  lemma ReadTextField(t: Bytes, max: nat, rest: Bytes)
    requires 1 <= |t| <= max && |t| < 0x100
    ensures ReadText(TextField(t) + rest, max) == if TextOk(t, false) then Got(Text(t), rest) else Fail
  {
    var b := TextField(t) + rest;
    assert b[1..1 + |t|] == t && b[1 + |t|..] == rest;
  }

  lemma ReadBodyField(t: Bytes, rest: Bytes)
    requires 1 <= |t| <= MAX_BODY_LEN
    ensures BodyFits(BodyField(t) + rest)
    ensures ReadBody(BodyField(t) + rest) == if TextOk(t, true) then Got(Text(t), rest) else Fail
  {
    var b := BodyField(t) + rest;
    ReadWritten(|t|, 0, t + rest);
    assert b == U16be(|t|) + (t + rest);
    assert b[2..2 + |t|] == t && b[2 + |t|..] == rest;
  }

  lemma ReadFileTail(b: Bytes, f: Attachment, t: Bytes, rest: Bytes)
    requires |b| >= 1 && b[0] == 1 && |f.hash| == ATT_HASH_LEN
    requires t == U32be(f.size) + (f.hash + rest)
    requires ReadText(b[1..], MAX_ATT_NAME_LEN) == Got(Text(f.name), t)
    ensures ReadAttachment(b) == Got(File(Some(f)), rest)
  {
    hide ReadText, U32be, ReadU32be;
    ReadWritten(0, f.size, f.hash + rest);
    assert t[4..4 + ATT_HASH_LEN] == f.hash && t[4 + ATT_HASH_LEN..] == rest;
  }

  lemma ReadFileField(f: Attachment, rest: Bytes)
    requires ValidAttachment(f)
    ensures ReadAttachment(AttachmentField(Some(f)) + rest) == Got(File(Some(f)), rest)
  {
    hide ReadText, TextField, U32be, ReadAttachment;
    var b := AttachmentField(Some(f)) + rest;
    var t := U32be(f.size) + (f.hash + rest);
    ReadTextField(f.name, MAX_ATT_NAME_LEN, t);
    assert b[1..] == TextField(f.name) + t;
    ReadFileTail(b, f, t, rest);
  }

  /** Reading the encoding of a part gives the part back and stops where it ends. */
  lemma ReadEncoded(k: Stage, p: Part, rest: Bytes)
    requires ValidPart(k, p)
    ensures ReadPart(k, EncodePart(k, p) + rest) == Got(p, rest)
  {
    if k == 0 {
      assert (p.text + rest)[..CHALLENGE_LEN] == p.text && (p.text + rest)[CHALLENGE_LEN..] == rest;
    } else if k == 4 {
      ReadBodyField(p.text, rest);
    } else if k == 5 {
      if p.file.Some? {
        ReadFileField(p.file.value, rest);
      }
    } else {
      ReadTextField(p.text, MaxLen(k), rest);
    }
  }

  lemma ReadTextSound(b: Bytes, max: nat)
    requires max < 0x100 && ReadText(b, max).Got?
    ensures var r := ReadText(b, max);
            r.part.Text? && ValidText(r.part.text, max) && b == TextField(r.part.text) + r.rest
  {
  }

  lemma ReadBodySound(b: Bytes)
    requires ReadBody(b).Got?
    ensures var r := ReadBody(b);
            r.part.Text? && ValidBody(r.part.text) && b == BodyField(r.part.text) + r.rest
  {
    hide TextOk;
  }

  lemma ReadAttachmentSound(b: Bytes)
    requires ReadAttachment(b).Got?
    ensures var r := ReadAttachment(b);
            && r.part.File? && (r.part.file.Some? ==> ValidAttachment(r.part.file.value))
            && b == AttachmentField(r.part.file) + r.rest
  {
    hide ReadText, TextField, ValidText, U32be, ReadU32be;
    if b[0] == 1 {
      ReadTextSound(b[1..], MAX_ATT_NAME_LEN);
      var r, name := ReadAttachment(b), ReadText(b[1..], MAX_ATT_NAME_LEN);
      var t, f := name.rest, r.part.file.value;
      assert t == U32be(f.size) + f.hash + r.rest;
      assert [1] + b[1..] == b;
    }
  }

  /** Whatever is read was the encoding of a well-formed part. */
  lemma ReadSound(k: Stage, b: Bytes)
    requires ReadPart(k, b).Got?
    ensures ValidPart(k, ReadPart(k, b).part)
    ensures b == EncodePart(k, ReadPart(k, b).part) + ReadPart(k, b).rest
  {
    hide ReadText, ReadBody, ReadAttachment, TextField, BodyField, AttachmentField, ValidText, ValidBody, ValidAttachment;
    if k == 4 {
      ReadBodySound(b);
    } else if k == 5 {
      ReadAttachmentSound(b);
    } else if k != 0 {
      ReadTextSound(b, MaxLen(k));
    }
  }

  // ---- reading a whole payload ----

  /** The parts read from stage |parts| on, and the bytes left over where reading stopped. */
  datatype Parsed = Parsed(parts: seq<Part>, rest: Bytes)

  function Scan(parts: seq<Part>, b: Bytes): (r: Parsed)
    requires |parts| <= PARTS
    ensures parts <= r.parts && |r.parts| <= PARTS
    ensures |r.parts| < PARTS ==> ReadPart(|r.parts|, r.rest) == Fail
    decreases PARTS - |parts|
  {
    if |parts| == PARTS then Parsed(parts, b)
    else
      match ReadPart(|parts|, b)
      case Fail => Parsed(parts, b)
      case Got(p, rest) => Scan(parts + [p], rest)
  }

  /** The status of a payload whose part k cannot be read from b. */
  function StageError(k: Stage, b: Bytes): ParserStatus {
    if k == 0 then ChallengeParsingError
    else if k == 1 then FromParsingError
    else if k == 2 then ToParsingError
    else if k == 3 then SubjectParsingError
    else if k == 4 then (if BodyFits(b) then FieldEncodingError else BodyParsingError)
    else AttachmentParsingError
  }

  function Verdict(r: Parsed): ParserStatus
    requires |r.parts| <= PARTS
  {
    if |r.parts| < PARTS then StageError(|r.parts|, r.rest)
    else if r.rest == [] then ParsingOk
    else WrongLengthError
  }

  function StatusOf(b: Bytes): ParserStatus {
    if |b| > MAX_TX_LEN then WrongLengthError else Verdict(Scan([], b))
  }

  predicate Accepted(b: Bytes) {
    StatusOf(b) == ParsingOk
  }

  /** One step of `Scan`; where it stops, the verdict is that stage's error. */
  lemma ScanStep(parts: seq<Part>, b: Bytes)
    requires |parts| < PARTS
    ensures match ReadPart(|parts|, b)
            case Fail => Verdict(Scan(parts, b)) == StageError(|parts|, b)
            case Got(p, rest) => Scan(parts, b) == Scan(parts + [p], rest)
  {
  }

  lemma ScanChallenge(b: Bytes)
    ensures |b| < CHALLENGE_LEN ==> Verdict(Scan([], b)) == ChallengeParsingError
    ensures |b| >= CHALLENGE_LEN ==> Scan([], b) == Scan([Text(b[..CHALLENGE_LEN])], b[CHALLENGE_LEN..])
  {
    ScanStep([], b);
    if |b| >= CHALLENGE_LEN {
      assert [] + [Text(b[..CHALLENGE_LEN])] == [Text(b[..CHALLENGE_LEN])];
    }
  }

  lemma ScanText(parts: seq<Part>, b: Bytes)
    requires 1 <= |parts| <= 3
    ensures var r := ReadText(b, MaxLen(|parts|));
            match r
            case Got(p, rest) => Scan(parts, b) == Scan(parts + [p], rest)
            case Fail => Verdict(Scan(parts, b)) == StageError(|parts|, b)
  {
    ScanStep(parts, b);
  }

  lemma ScanBody(parts: seq<Part>, b: Bytes)
    requires |parts| == 4
    ensures ReadBody(b).Got? ==> Scan(parts, b) == Scan(parts + [ReadBody(b).part], ReadBody(b).rest)
    ensures ReadBody(b).Fail? ==> Verdict(Scan(parts, b)) == StageError(4, b)
  {
    ScanStep(parts, b);
  }

  lemma ScanAttachment(parts: seq<Part>, b: Bytes)
    requires |parts| == 5
    ensures ReadAttachment(b).Got? ==> Scan(parts, b) == Scan(parts + [ReadAttachment(b).part], ReadAttachment(b).rest)
    ensures ReadAttachment(b).Fail? ==> Verdict(Scan(parts, b)) == AttachmentParsingError
  {
    ScanStep(parts, b);
  }

  lemma ScanEnd(parts: seq<Part>, b: Bytes)
    requires |parts| == PARTS
    ensures Scan(parts, b).parts == parts
    ensures Verdict(Scan(parts, b)) == if b == [] then ParsingOk else WrongLengthError
  {
  }

  /** Scanning goes through well-formed parts only, and loses no byte. */
  lemma {:induction false} ScanSound(parts: seq<Part>, b: Bytes)
    requires ValidParts(parts)
    ensures var r := Scan(parts, b);
            ValidParts(r.parts) && EncodeParts(parts) + b == EncodeParts(r.parts) + r.rest
    decreases PARTS - |parts|
  {
    hide EncodePart, ReadPart, ValidPart;
    if |parts| < PARTS && ReadPart(|parts|, b).Got? {
      var p, rest := ReadPart(|parts|, b).part, ReadPart(|parts|, b).rest;
      ReadSound(|parts|, b);
      var more := parts + [p];
      ScanSound(more, rest);
      assert more[..|more| - 1] == parts;
      assert EncodeParts(parts) + b == EncodeParts(more) + rest;
    }
  }

  /** Scanning walks through any encoded well-formed parts. */
  lemma {:induction false} ScanEncoded(ps: seq<Part>, rest: Bytes)
    requires ValidParts(ps)
    ensures Scan([], EncodeParts(ps) + rest) == Scan(ps, rest)
  {
    hide EncodePart, ReadPart, ValidPart, Scan;
    if ps == [] {
      assert EncodeParts(ps) + rest == rest;
    } else {
      var front, last := ps[..|ps| - 1], ps[|ps| - 1];
      var tail := EncodePart(|front|, last) + rest;
      ScanEncoded(front, tail);
      ReadEncoded(|front|, last, rest);
      ScanStep(front, tail);
      assert EncodeParts(ps) + rest == EncodeParts(front) + tail;
      assert front + [last] == ps;
    }
  }
}
