/**
 src/transaction/deserialize.c: the parser, over a buffer with a moving offset, writing an
 email record whose fields point into that buffer.
 */
module Parser {
  import opened ByteString
  import opened Memory
  import opened Wire

  /** The SDK's buffer_t: a cursor that never passes its size. */
  class Buffer {
    const bytes: array<byte>
    const size: nat
    var offset: nat

    ghost predicate Valid()
      reads this
    {
      offset <= size <= bytes.Length
    }

    function Rest(): Bytes
      requires Valid()
      reads this, bytes
    {
      bytes[offset..size]
    }

    constructor (bytes: array<byte>, size: nat)
      requires size <= bytes.Length
      ensures Valid() && this.bytes == bytes && this.size == size && offset == 0
    {
      this.bytes, this.size, offset := bytes, size, 0;
    }

    method SeekCur(n: nat) returns (ok: bool)
      requires Valid()
      modifies this
      ensures Valid()
      ensures ok == (n <= |old(Rest())|)
      ensures offset == if ok then old(offset) + n else old(offset)
      ensures Rest() == if ok then old(Rest())[n..] else old(Rest())
      ensures ok ==> Readable(At(bytes, old(offset)), n) && Slice(At(bytes, old(offset)), n) == old(Rest())[..n]
    {
      ok := offset + n <= size;
      if ok {
        offset := offset + n;
      }
    }

    method ReadU8() returns (ok: bool, v: byte)
      requires Valid()
      modifies this
      ensures Valid()
      ensures ok == (1 <= |old(Rest())|)
      ensures !ok ==> v == 0 && offset == old(offset)
      ensures ok ==> v == old(Rest())[0] && offset == old(offset) + 1 && Rest() == old(Rest())[1..]
    {
      v := 0;
      ok := offset + 1 <= size;
      if ok {
        v, offset := bytes[offset], offset + 1;
      }
    }

    method ReadU16() returns (ok: bool, v: u16)
      requires Valid()
      modifies this
      ensures Valid()
      ensures ok == (2 <= |old(Rest())|)
      ensures !ok ==> offset == old(offset)
      ensures ok ==> v == ReadU16be(old(Rest())) && offset == old(offset) + 2 && Rest() == old(Rest())[2..]
    {
      v := 0;
      ok := offset + 2 <= size;
      if ok {
        v, offset := (bytes[offset] as int) * 0x100 + bytes[offset + 1], offset + 2;
      }
    }

    method ReadU32() returns (ok: bool, v: u32)
      requires Valid()
      modifies this
      ensures Valid()
      ensures ok == (4 <= |old(Rest())|)
      ensures !ok ==> offset == old(offset)
      ensures ok ==> v == ReadU32be(old(Rest())) && offset == old(offset) + 4 && Rest() == old(Rest())[4..]
    {
      v := 0;
      ok := offset + 4 <= size;
      if ok {
        v := ReadU32be(bytes[offset..offset + 4]);
        assert bytes[offset..offset + 4] == Rest()[..4];
        offset := offset + 4;
      }
    }

    /** buffer_move: everything that is left, when it fits n bytes. */
    method MoveTo(dst: array<byte>, at: nat, n: nat) returns (ok: bool)
      requires Valid() && at + n <= dst.Length && dst != bytes
      modifies this, dst
      ensures Valid() && ok == (|old(Rest())| <= n)
      ensures dst[..] == if ok then old(dst[..at] + Rest() + dst[at + |Rest()|..]) else old(dst[..])
    {
      if size - offset > n {
        return false;
      }
      Move(dst, at, At(bytes, offset), size - offset);
      var _ := SeekCur(n);
      return true;
    }
  }

  /** email_t: every text field is a pointer and a length. */
  class EmailRecord {
    var challenge: Pointer
    var from: Pointer
    var fromLen: byte
    var to: Pointer
    var toLen: byte
    var subject: Pointer
    var subjectLen: byte
    var body: Pointer
    var bodyLen: u16
    var hasAttachment: byte
    var attName: Pointer
    var attNameLen: byte
    var attSize: u32
    var attHash: Pointer

    method ResetTexts()
      modifies `challenge, `from, `fromLen, `to, `toLen, `subject, `subjectLen, `body, `bodyLen
      ensures challenge.Null? && from.Null? && to.Null? && subject.Null? && body.Null?
      ensures fromLen == 0 && toLen == 0 && subjectLen == 0 && bodyLen == 0
    {
      challenge, from, to, subject, body := Null, Null, Null, Null, Null;
      fromLen, toLen, subjectLen, bodyLen := 0, 0, 0, 0;
    }

    method ResetFile()
      modifies `hasAttachment, `attName, `attNameLen, `attSize, `attHash
      ensures attName.Null? && attHash.Null? && hasAttachment == 0 && attNameLen == 0 && attSize == 0
    {
      attName, attHash := Null, Null;
      hasAttachment, attNameLen, attSize := 0, 0, 0;
    }

    /** explicit_bzero of the record. */
    method Reset()
      modifies this
      ensures challenge.Null? && from.Null? && to.Null? && subject.Null? && body.Null? && attName.Null? && attHash.Null?
      ensures fromLen == 0 && toLen == 0 && subjectLen == 0 && bodyLen == 0
      ensures hasAttachment == 0 && attNameLen == 0 && attSize == 0
    {
      ResetTexts();
      ResetFile();
    }

    constructor () {
      new;
      Reset();
    }

    /** The header fields (challenge, from, to, subject) can be read from the buffer `bases`. */
    ghost predicate HeaderIn(bases: set<array<byte>>)
      reads `challenge, `from, `fromLen, `to, `toLen, `subject, `subjectLen
    {
      && Readable(challenge, CHALLENGE_LEN) && challenge.base in bases
      && Readable(from, fromLen) && from.base in bases
      && Readable(to, toLen) && to.base in bases
      && Readable(subject, subjectLen) && subject.base in bases
    }

    ghost predicate FileIn(bases: set<array<byte>>)
      reads `hasAttachment, `attName, `attNameLen, `attSize, `attHash
    {
      hasAttachment != 0 ==>
        && Readable(attName, attNameLen) && attName.base in bases
        && Readable(attHash, ATT_HASH_LEN) && attHash.base in bases
    }

    ghost predicate ReadsFrom(bases: set<array<byte>>)
      reads this
    {
      HeaderIn(bases) && Readable(body, bodyLen) && body.base in bases && FileIn(bases)
    }

    ghost function HeaderParts(bases: set<array<byte>>): seq<Part>
      requires HeaderIn(bases)
      reads `challenge, `from, `fromLen, `to, `toLen, `subject, `subjectLen, bases
      ensures |HeaderParts(bases)| == 4
    {
      [Text(Slice(challenge, CHALLENGE_LEN)), Text(Slice(from, fromLen)),
       Text(Slice(to, toLen)), Text(Slice(subject, subjectLen))]
    }

    /** Any nonzero has_attachment counts as one attachment. */
    ghost function FileView(bases: set<array<byte>>): Option<Attachment>
      requires FileIn(bases)
      reads `hasAttachment, `attName, `attNameLen, `attSize, `attHash, bases
    {
      if hasAttachment == 0 then None
      else Some(Attachment(Slice(attName, attNameLen), attSize, Slice(attHash, ATT_HASH_LEN)))
    }

    /** The email the record stands for. */
    ghost function View(bases: set<array<byte>>): (e: Email)
      requires ReadsFrom(bases)
      reads this, bases
      ensures Sized(e)
    {
      Email(Slice(challenge, CHALLENGE_LEN), Slice(from, fromLen), Slice(to, toLen),
            Slice(subject, subjectLen), Slice(body, bodyLen), FileView(bases))
    }

    ghost function Parts(bases: set<array<byte>>): seq<Part>
      requires ReadsFrom(bases)
      reads this, bases
    {
      HeaderParts(bases) + [Text(Slice(body, bodyLen))] + [File(FileView(bases))]
    }
  }

  method IsTextOk(p: Pointer, len: nat, allowNewline: bool) returns (ok: bool)
    requires Readable(p, len)
    ensures ok == TextOk(Slice(p, len), allowNewline)
  {
    var i := 0;
    while i < len
      invariant i <= len
      invariant TextOk(Slice(p, i), allowNewline)
    {
      var c := p.base[p.index + i];
      assert c == Slice(p, len)[i];
      if !(allowNewline && c == 0x0a) && (c < 0x20 || c > 0x7e) {
        return false;
      }
      i := i + 1;
    }
    return true;
  }

  /** Reads a u8-length-prefixed text field exactly as `ReadText` does. */
  method ReadTextField(buf: Buffer, max: byte) returns (ok: bool, field: Pointer, len: byte)
    requires buf.Valid()
    modifies buf
    ensures buf.Valid()
    ensures ok ==> Readable(field, len) && field.base == buf.bytes
    ensures ReadText(old(buf.Rest()), max) == if ok then Got(Text(Slice(field, len)), buf.Rest()) else Fail
  {
    field := Null;
    ok, len := buf.ReadU8();
    if !ok || len == 0 || len > max {
      return false, field, len;
    }
    field := At(buf.bytes, buf.offset);
    ok := buf.SeekCur(len);
    if ok {
      assert old(buf.Rest())[1..][..len] == old(buf.Rest())[1..1 + len];
      ok := IsTextOk(field, len, false);
    }
  }

  lemma HeaderPartsAre(tx: EmailRecord, bases: set<array<byte>>)
    requires tx.HeaderIn(bases)
    ensures tx.HeaderParts(bases)
         == [Text(Slice(tx.challenge, CHALLENGE_LEN))] + [Text(Slice(tx.from, tx.fromLen))]
            + [Text(Slice(tx.to, tx.toLen))] + [Text(Slice(tx.subject, tx.subjectLen))]
  {
  }

  /** The next text field of a payload b whose first parts were read already. */
  method ReadTextStage(buf: Buffer, max: byte, ghost b: Bytes, ghost parts: seq<Part>)
    returns (ok: bool, field: Pointer, len: byte)
    requires buf.Valid() && 1 <= |parts| <= 3 && max == MaxLen(|parts|)
    requires Scan([], b) == Scan(parts, buf.Rest())
    modifies buf
    ensures buf.Valid()
    ensures ok ==>
              && Readable(field, len) && field.base == buf.bytes
              && Scan([], b) == Scan(parts + [Text(Slice(field, len))], buf.Rest())
    ensures !ok ==> Verdict(Scan([], b)) == StageError(|parts|, [])
  {
    hide ReadPart, ReadText, Scan, Verdict, Slice, Buffer.Rest;
    ScanText(parts, buf.Rest());
    ok, field, len := ReadTextField(buf, max);
  }

  method DeserializeToSubject(buf: Buffer, tx: EmailRecord, ghost b: Bytes, ghost parts: seq<Part>)
    returns (status: ParserStatus)
    requires buf.Valid() && |parts| == 2 && Scan([], b) == Scan(parts, buf.Rest())
    modifies buf, tx`to, tx`toLen, tx`subject, tx`subjectLen
    ensures buf.Valid()
    ensures status == ParsingOk ==>
              && Readable(tx.to, tx.toLen) && tx.to.base == buf.bytes
              && Readable(tx.subject, tx.subjectLen) && tx.subject.base == buf.bytes
              && Scan([], b)
                 == Scan(parts + [Text(Slice(tx.to, tx.toLen))] + [Text(Slice(tx.subject, tx.subjectLen))], buf.Rest())
    ensures status != ParsingOk ==> status == Verdict(Scan([], b))
  {
    hide Scan, Verdict, Slice, Readable, Buffer.Rest;
    var ok, field, len := ReadTextStage(buf, MAX_TO_LEN, b, parts);
    tx.to, tx.toLen := field, len;
    if !ok {
      return ToParsingError;
    }
    ghost var more := parts + [Text(Slice(field, len))];
    ok, field, len := ReadTextStage(buf, MAX_SUBJECT_LEN, b, more);
    tx.subject, tx.subjectLen := field, len;
    if !ok {
      return SubjectParsingError;
    }
    return ParsingOk;
  }

  /** The challenge and the three u8-prefixed text fields. */
  method DeserializeHeader(buf: Buffer, tx: EmailRecord) returns (status: ParserStatus)
    requires buf.Valid()
    modifies buf, tx`challenge, tx`from, tx`fromLen, tx`to, tx`toLen, tx`subject, tx`subjectLen
    ensures buf.Valid()
    ensures if status == ParsingOk then
              && tx.HeaderIn({buf.bytes})
              && Scan([], old(buf.Rest())) == Scan(tx.HeaderParts({buf.bytes}), buf.Rest())
            else status == Verdict(Scan([], old(buf.Rest())))
  {
    hide Scan, Verdict, Slice, Readable, Buffer.Rest, EmailRecord.HeaderParts;
    ghost var b := buf.Rest();
    ScanChallenge(b);
    tx.challenge := At(buf.bytes, buf.offset);
    var ok := buf.SeekCur(CHALLENGE_LEN);
    if !ok {
      return ChallengeParsingError;
    }
    ghost var challenge := Text(Slice(tx.challenge, CHALLENGE_LEN));
    var field, len;
    ok, field, len := ReadTextStage(buf, MAX_FROM_LEN, b, [challenge]);
    tx.from, tx.fromLen := field, len;
    if !ok {
      return FromParsingError;
    }
    ghost var parts := [challenge] + [Text(Slice(field, len))];
    status := DeserializeToSubject(buf, tx, b, parts);
    if status == ParsingOk {
      HeaderPartsAre(tx, {buf.bytes});
    }
  }

  lemma ReadBodyCases(b: Bytes)
    ensures |b| < 2 || !(1 <= ReadU16be(b) <= MAX_BODY_LEN) || 2 + ReadU16be(b) > |b| ==>
              ReadBody(b) == Fail && StageError(4, b) == BodyParsingError
    ensures |b| >= 2 && 1 <= ReadU16be(b) <= MAX_BODY_LEN && 2 + ReadU16be(b) <= |b| ==>
              var t, rest := b[2..][..ReadU16be(b)], b[2..][ReadU16be(b)..];
              && StageError(4, b) == FieldEncodingError
              && ReadBody(b) == if TextOk(t, true) then Got(Text(t), rest) else Fail
  {
    if BodyFits(b) {
      var n := ReadU16be(b);
      assert b[2..][..n] == b[2..2 + n] && b[2..][n..] == b[2 + n..];
    }
  }

  /** The body stage: a u16 length, the bounds, the bytes, then their charset. */
  method DeserializeBody(buf: Buffer, tx: EmailRecord) returns (status: ParserStatus)
    requires buf.Valid()
    modifies buf, tx`body, tx`bodyLen
    ensures buf.Valid()
    ensures status == ParsingOk ==>
              && Readable(tx.body, tx.bodyLen) && tx.body.base == buf.bytes
              && ReadBody(old(buf.Rest())) == Got(Text(Slice(tx.body, tx.bodyLen)), buf.Rest())
    ensures status != ParsingOk ==> ReadBody(old(buf.Rest())) == Fail && status == StageError(4, old(buf.Rest()))
  {
    hide ReadBody, StageError, TextOk, ReadU16be, Slice, Buffer.Rest;
    ghost var b := buf.Rest();
    ReadBodyCases(b);
    var ok, bodyLen := buf.ReadU16();
    if !ok {
      return BodyParsingError;
    }
    if bodyLen == 0 || bodyLen > MAX_BODY_LEN {
      return BodyParsingError;
    }
    tx.body := At(buf.bytes, buf.offset);
    ok := buf.SeekCur(bodyLen);
    if !ok {
      return BodyParsingError;
    }
    ok := IsTextOk(tx.body, bodyLen, true);
    if !ok {
      return FieldEncodingError;
    }
    tx.bodyLen := bodyLen;
    return ParsingOk;
  }

  ghost predicate FileFieldsAre(tx: EmailRecord, bases: set<array<byte>>, a: Attachment)
    reads tx, bases
  {
    && Readable(tx.attName, tx.attNameLen) && tx.attName.base in bases
    && Readable(tx.attHash, ATT_HASH_LEN) && tx.attHash.base in bases
    && a == Attachment(Slice(tx.attName, tx.attNameLen), tx.attSize, Slice(tx.attHash, ATT_HASH_LEN))
  }

  /** Name, size and content hash, after a count of one. */
  method DeserializeFile(buf: Buffer, tx: EmailRecord) returns (ok: bool)
    requires buf.Valid()
    modifies buf, tx`attName, tx`attNameLen, tx`attSize, tx`attHash
    ensures buf.Valid()
    ensures var name := ReadText(old(buf.Rest()), MAX_ATT_NAME_LEN);
            && ok == (name.Got? && |name.rest| >= 4 + ATT_HASH_LEN)
            && (ok ==>
                  && buf.Rest() == name.rest[4 + ATT_HASH_LEN..]
                  && FileFieldsAre(tx, {buf.bytes},
                       Attachment(name.part.text, ReadU32be(name.rest), name.rest[4..4 + ATT_HASH_LEN])))
  {
    hide ReadText, ReadU32be, Slice, Buffer.Rest;
    var name, nameLen, size;
    ok, name, nameLen := ReadTextField(buf, MAX_ATT_NAME_LEN);
    tx.attName, tx.attNameLen := name, nameLen;
    if !ok {
      return;
    }
    ghost var t := buf.Rest();
    ok, size := buf.ReadU32();
    tx.attSize := size;
    if !ok {
      return;
    }
    tx.attHash := At(buf.bytes, buf.offset);
    ok := buf.SeekCur(ATT_HASH_LEN);
    if ok {
      assert t[4..][..ATT_HASH_LEN] == t[4..4 + ATT_HASH_LEN];
    }
  }

  /** The attachment stage: a count of at most one, then the file. */
  method DeserializeAttachment(buf: Buffer, tx: EmailRecord) returns (status: ParserStatus)
    requires buf.Valid()
    modifies buf, tx`hasAttachment, tx`attName, tx`attNameLen, tx`attSize, tx`attHash
    ensures buf.Valid()
    ensures tx.hasAttachment <= 1
    ensures status == ParsingOk ==>
              && tx.FileIn({buf.bytes})
              && ReadAttachment(old(buf.Rest())) == Got(File(tx.FileView({buf.bytes})), buf.Rest())
    ensures status != ParsingOk ==> ReadAttachment(old(buf.Rest())) == Fail && status == AttachmentParsingError
  {
    hide ReadText, ReadU32be;
    tx.hasAttachment, tx.attName, tx.attNameLen, tx.attSize, tx.attHash := 0, Null, 0, 0, Null;
    var ok, count := buf.ReadU8();
    if !ok || count > 1 {
      return AttachmentParsingError;
    }
    if count == 1 {
      ok := DeserializeFile(buf, tx);
      if !ok {
        return AttachmentParsingError;
      }
      tx.hasAttachment := 1;
    }
    return ParsingOk;
  }

  /**
   The status is the one of the specification, and on success the record holds the email
   that the specification reads.
   */
  method Deserialize(buf: Buffer, tx: EmailRecord) returns (status: ParserStatus)
    requires buf.Valid()
    modifies buf, tx
    ensures buf.Valid()
    ensures status == if buf.size > MAX_TX_LEN then WrongLengthError else Verdict(Scan([], old(buf.Rest())))
    ensures status == ParsingOk ==>
              && tx.ReadsFrom({buf.bytes}) && tx.hasAttachment <= 1 && buf.offset == buf.size
              && tx.Parts({buf.bytes}) == Scan([], old(buf.Rest())).parts
  {
    hide ReadPart, ReadBody, ReadAttachment, StageError, Scan, Verdict,
         EmailRecord.HeaderIn, EmailRecord.HeaderParts, EmailRecord.FileIn, EmailRecord.FileView;
    if buf.size > MAX_TX_LEN {
      return WrongLengthError;
    }
    status := DeserializeHeader(buf, tx);
    if status != ParsingOk {
      return;
    }
    ghost var header := tx.HeaderParts({buf.bytes});
    ScanBody(header, buf.Rest());
    status := DeserializeBody(buf, tx);
    if status != ParsingOk {
      return;
    }
    ghost var body := Text(Slice(tx.body, tx.bodyLen));
    assert tx.HeaderParts({buf.bytes}) == header;
    ScanAttachment(header + [body], buf.Rest());
    status := DeserializeAttachment(buf, tx);
    if status != ParsingOk {
      return;
    }
    assert tx.HeaderParts({buf.bytes}) == header && body == Text(Slice(tx.body, tx.bodyLen));
    ScanEnd(tx.Parts({buf.bytes}), buf.Rest());
    return if buf.offset == buf.size then ParsingOk else WrongLengthError;
  }
}
