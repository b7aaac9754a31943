/**
 src/transaction/serialize.c: the printer, writing an output buffer in place with a running offset.
 */
module Printer {
  import opened ByteString
  import opened Memory
  import opened Wire
  import opened Parser

  /** `now` is `before` overwritten from the front by `written`. */
  ghost predicate Wrote(now: Bytes, before: Bytes, written: Bytes) {
    |written| <= |before| && now == written + before[|written|..]
  }

  /** Bytes that are copied to position `at` of `out` lie outside `out` or not before that position. */
  ghost predicate Ahead(p: Pointer, out: array<byte>, at: nat) {
    p.At? && p.base == out ==> at <= p.index
  }

  /** What p pointed at when `out` held `before`. */
  ghost function Original(p: Pointer, n: nat, out: array<byte>, before: Bytes): (b: Bytes)
    requires Readable(p, n) && |before| == out.Length
    reads if p.base == out then {} else {p.base}
    ensures |b| == n
  {
    if p.base == out then before[p.index..p.index + n] else Slice(p, n)
  }

  method PutByte(out: array<byte>, offset: nat, b: byte, ghost before: Bytes, ghost written: Bytes)
    returns (next: nat)
    requires Wrote(out[..], before, written) && offset == |written| < out.Length
    modifies out
    ensures next == offset + 1 && Wrote(out[..], before, written + [b])
  {
    out[offset] := b;
    next := offset + 1;
  }

  /** `put` is what was copied: the original bytes, unless writing has already run over them. */
  method PutBytes(out: array<byte>, offset: nat, src: Pointer, n: nat, ghost before: Bytes, ghost written: Bytes)
    returns (next: nat, ghost put: Bytes)
    requires Readable(src, n) && Wrote(out[..], before, written) && offset == |written| && offset + n <= out.Length
    modifies out
    ensures next == offset + n && |put| == n && Wrote(out[..], before, written + put)
    ensures Ahead(src, out, offset) ==> put == Original(src, n, out, before)
  {
    put := Slice(src, n);
    if src.base == out && offset <= src.index {
      assert put == before[src.index..src.index + n];
    }
    Move(out, offset, src, n);
    next := offset + n;
  }

  method PutText(out: array<byte>, offset: nat, len: byte, src: Pointer, ghost before: Bytes, ghost written: Bytes)
    returns (next: nat, ghost put: Bytes)
    requires Readable(src, len) && Wrote(out[..], before, written)
    requires offset == |written| && offset + 1 + len <= out.Length
    modifies out
    ensures next == offset + 1 + len && |put| == 1 + len && Wrote(out[..], before, written + put)
    ensures Ahead(src, out, offset + 1) ==> put == TextField(Original(src, len, out, before))
  {
    hide Wrote, Slice, Original;
    next := PutByte(out, offset, len, before, written);
    next, put := PutBytes(out, next, src, len, before, written + [len]);
    assert written + [len] + put == written + ([len] + put);
    put := [len] + put;
  }

  method PutBody(out: array<byte>, offset: nat, len: u16, src: Pointer, ghost before: Bytes, ghost written: Bytes)
    returns (next: nat, ghost put: Bytes)
    requires Readable(src, len) && Wrote(out[..], before, written)
    requires offset == |written| && offset + 2 + len <= out.Length
    modifies out
    ensures next == offset + 2 + len && |put| == 2 + len && Wrote(out[..], before, written + put)
    ensures Ahead(src, out, offset + 2) ==> put == BodyField(Original(src, len, out, before))
  {
    hide Wrote, Slice, Original;
    next := PutByte(out, offset, len / 0x100, before, written);
    next := PutByte(out, next, len % 0x100, before, written + [len / 0x100]);
    ghost var w := written + [len / 0x100] + [len % 0x100];
    next, put := PutBytes(out, next, src, len, before, w);
    assert w + put == written + (U16be(len) + put);
    put := U16be(len) + put;
  }

  lemma ShiftedHigh(v: u32)
    ensures v / 0x100_0000 == v / 0x1_0000 / 0x100
  {
  }

  lemma ShiftedLow(v: u32)
    ensures v / 0x100 % 0x100 == v % 0x1_0000 / 0x100
    ensures v % 0x100 == v % 0x1_0000 % 0x100
  {
    var hi, lo := v / 0x1_0000, v % 0x1_0000;
    assert v == 0x1_0000 * hi + lo;
    assert v / 0x100 == 0x100 * hi + lo / 0x100;
  }

  method PutU32(out: array<byte>, offset: nat, v: u32, ghost before: Bytes, ghost written: Bytes)
    returns (next: nat)
    requires Wrote(out[..], before, written) && offset == |written| && offset + 4 <= out.Length
    modifies out
    ensures next == offset + 4 && Wrote(out[..], before, written + U32be(v))
  {
    var a, b, c, d := v / 0x100_0000, v / 0x1_0000 % 0x100, v / 0x100 % 0x100, v % 0x100;
    ShiftedHigh(v);
    ShiftedLow(v);
    assert U32be(v) == [a, b, c, d];
    hide Wrote, U32be;
    next := PutByte(out, offset, a, before, written);
    next := PutByte(out, next, b, before, written + [a]);
    next := PutByte(out, next, c, before, written + [a] + [b]);
    next := PutByte(out, next, d, before, written + [a] + [b] + [c]);
    assert written + [a] + [b] + [c] + [d] == written + [a, b, c, d];
  }

  /** The length of the encoding up to the attachment part. */
  function HeadLength(tx: EmailRecord): nat
    reads tx
  {
    CHALLENGE_LEN + 1 + tx.fromLen + 1 + tx.toLen + 1 + tx.subjectLen + 2 + tx.bodyLen
  }

  /** No header field lies in `out` before the place it is copied to. */
  ghost predicate HeadAhead(tx: EmailRecord, out: array<byte>)
    reads tx
  {
    && Ahead(tx.from, out, CHALLENGE_LEN + 1)
    && Ahead(tx.to, out, CHALLENGE_LEN + 1 + tx.fromLen + 1)
    && Ahead(tx.subject, out, CHALLENGE_LEN + 1 + tx.fromLen + 1 + tx.toLen + 1)
    && Ahead(tx.body, out, HeadLength(tx) - tx.bodyLen)
  }

  /** Nor does an attachment field, for an attachment part at position `at`. */
  ghost predicate FileAhead(tx: EmailRecord, out: array<byte>, at: nat)
    reads tx
  {
    tx.hasAttachment != 0 ==>
      Ahead(tx.attName, out, at + 2) && Ahead(tx.attHash, out, at + 2 + tx.attNameLen + 4)
  }

  ghost predicate FieldsAhead(tx: EmailRecord, out: array<byte>)
    reads tx
  {
    HeadAhead(tx, out) && FileAhead(tx, out, HeadLength(tx))
  }

  /** An output buffer of its own is always safe. */
  lemma ApartIsAhead(tx: EmailRecord, bases: set<array<byte>>, out: array<byte>)
    requires tx.ReadsFrom(bases) && out !in bases
    ensures FieldsAhead(tx, out)
  {
  }

  /** f is the attachment that the record stood for when `out` held `before`. */
  ghost predicate OriginalFile(tx: EmailRecord, out: array<byte>, before: Bytes, f: Attachment)
    requires |before| == out.Length
    reads tx, if tx.attName.At? && tx.attName.base != out then {tx.attName.base} else {},
          if tx.attHash.At? && tx.attHash.base != out then {tx.attHash.base} else {}
  {
    && Readable(tx.attName, tx.attNameLen) && f.name == Original(tx.attName, tx.attNameLen, out, before)
    && Readable(tx.attHash, ATT_HASH_LEN) && f.hash == Original(tx.attHash, ATT_HASH_LEN, out, before)
    && f.size == tx.attSize
  }

  method PutFile(out: array<byte>, offset: nat, tx: EmailRecord, ghost bases: set<array<byte>>,
                 ghost before: Bytes, ghost written: Bytes, ghost f: Attachment)
    returns (next: nat, ghost put: Bytes)
    requires tx.FileIn(bases) && tx.hasAttachment != 0 && |before| == out.Length && OriginalFile(tx, out, before, f)
    requires Wrote(out[..], before, written) && offset == |written|
    requires offset + 1 + 1 + tx.attNameLen + 4 + ATT_HASH_LEN <= out.Length
    modifies out
    ensures next == offset + 1 + 1 + tx.attNameLen + 4 + ATT_HASH_LEN
    ensures |put| == next - offset && Wrote(out[..], before, written + put)
    ensures FileAhead(tx, out, offset) ==> put == AttachmentField(Some(f))
  {
    hide Wrote, Slice, TextField, U32be, Original;
    ghost var name, hash;
    next := PutByte(out, offset, 1, before, written);
    ghost var w := written + [1];
    next, name := PutText(out, next, tx.attNameLen, tx.attName, before, w);
    w := w + name;
    next := PutU32(out, next, tx.attSize, before, w);
    w := w + U32be(tx.attSize);
    next, hash := PutBytes(out, next, tx.attHash, ATT_HASH_LEN, before, w);
    put := [1] + name + U32be(tx.attSize) + hash;
    assert w + hash == written + put;
  }

  /** The bytes before the attachment part. */
  ghost function Head(e: Email): Bytes
    requires Sized(e)
  {
    e.challenge + TextField(e.from) + TextField(e.to) + TextField(e.subject) + BodyField(e.body)
  }

  lemma OriginalFields(tx: EmailRecord, bases: set<array<byte>>, out: array<byte>)
    requires tx.ReadsFrom(bases)
    ensures var e, before := tx.View(bases), out[..];
            && e.challenge == Original(tx.challenge, CHALLENGE_LEN, out, before)
            && e.from == Original(tx.from, tx.fromLen, out, before)
            && e.to == Original(tx.to, tx.toLen, out, before)
            && e.subject == Original(tx.subject, tx.subjectLen, out, before)
            && e.body == Original(tx.body, tx.bodyLen, out, before)
            && (e.attachment.Some? <==> tx.hasAttachment != 0)
            && (e.attachment.Some? ==> OriginalFile(tx, out, before, e.attachment.value))
  {
  }

  method PutHead(tx: EmailRecord, ghost bases: set<array<byte>>, out: array<byte>, ghost before: Bytes)
    returns (offset: nat, ghost put: Bytes)
    requires tx.ReadsFrom(bases) && HeadLength(tx) <= out.Length && before == out[..]
    modifies out
    ensures offset == |put| == HeadLength(tx) && Wrote(out[..], before, put)
    ensures HeadAhead(tx, out) ==> put == old(Head(tx.View(bases)))
  {
    assert Wrote(out[..], before, []);
    ghost var e := tx.View(bases);
    OriginalFields(tx, bases, out);
    hide Wrote, Slice, TextField, BodyField, Original, OriginalFile, EmailRecord.View, EmailRecord.FileIn;
    ghost var challenge, from, to, subject, body;
    offset, challenge := PutBytes(out, 0, tx.challenge, CHALLENGE_LEN, before, []);
    put := challenge;
    assert [] + challenge == put;
    offset, from := PutText(out, offset, tx.fromLen, tx.from, before, put);
    put := put + from;
    offset, to := PutText(out, offset, tx.toLen, tx.to, before, put);
    put := put + to;
    offset, subject := PutText(out, offset, tx.subjectLen, tx.subject, before, put);
    put := put + subject;
    offset, body := PutBody(out, offset, tx.bodyLen, tx.body, before, put);
    put := put + body;
  }

  /** How many bytes are written: all of them, the head before a late failure, or none. */
  ghost function Reach(e: Email, outLen: nat): nat
    requires Sized(e)
  {
    if |Encode(e)| <= outLen then |Encode(e)| else if |Head(e)| <= outLen then |Head(e)| else 0
  }

  /**
   Fails exactly when the whole encoding does not fit. Whatever the record points into, no byte past the written
   ones changes; and those are the encoding, unless a field lies in the output before the place it is copied to.
   */
  method Serialize(tx: EmailRecord, ghost bases: set<array<byte>>, out: array<byte>, outLen: nat) returns (r: int)
    requires tx.ReadsFrom(bases) && outLen <= out.Length
    modifies out
    ensures var e := old(tx.View(bases));
            && r == (if |Encode(e)| <= outLen then |Encode(e)| else -1)
            && var n := Reach(e, outLen);
            && n <= outLen && out[n..] == old(out[n..])
            && (FieldsAhead(tx, out) ==> out[..n] == Encode(e)[..n])
  {
    ghost var before, e := out[..], tx.View(bases);
    ghost var head, file := [], [];
    OriginalFields(tx, bases, out);
    assert Encode(e) == Head(e) + AttachmentField(e.attachment) && |Head(e)| == HeadLength(tx);
    hide Slice, TextField, BodyField, U32be, Encode, Head, Original, OriginalFile;
    var need := CHALLENGE_LEN + 1 + tx.fromLen + 1 + tx.toLen + 1 + tx.subjectLen + 2 + tx.bodyLen;
    if need > outLen {
      return -1;
    }
    var offset;
    offset, head := PutHead(tx, bases, out, before);
    if tx.hasAttachment != 0 {
      if offset + 1 + 1 + tx.attNameLen + 4 + ATT_HASH_LEN > outLen {
        return -1;
      }
      offset, file := PutFile(out, offset, tx, bases, before, head, e.attachment.value);
    } else {
      if offset + 1 > outLen {
        return -1;
      }
      offset := PutByte(out, offset, 0, before, head);
    }
    return offset;
  }
}
