/**
 src/ui/nbgl_display_transaction.c: filling the static display buffers and the tag/value list.
 */
module Display {
  import opened ByteString
  import opened Memory
  import opened Wire
  import opened Parser
  import opened Screen

  /** nbgl_contentTagValue_t: the value is a buffer that the review reads as a C string. */
  datatype TagValue = TagValue(item: string, value: array<byte>)

  ghost predicate Holds(buf: array<byte>, text: Bytes)
    reads buf
  {
    CString(buf[..]) == text
  }

  lemma TextHasNoNul(t: Bytes, newline: bool)
    requires TextOk(t, newline)
    ensures 0 !in t
  {
  }

  /** A bounded copy; a NUL-free text that fits is shown whole. */
  method CopyField(dst: array<byte>, src: Pointer, len: nat)
    requires dst.Length >= 1 && Readable(src, len) && src.base != dst
    modifies dst
    ensures var n := if len < dst.Length - 1 then len else dst.Length - 1;
            dst[..] == Slice(src, n) + Zeros(dst.Length - n)
    ensures len < dst.Length && 0 !in Slice(src, len) ==> Holds(dst, Slice(src, len))
  {
    Clear(dst);
    var n := if len < dst.Length - 1 then len else dst.Length - 1;
    Move(dst, 0, src, n);
    dst[n] := 0;
    if len < dst.Length && 0 !in Slice(src, len) {
      CStringOf(Slice(src, len), dst[..]);
    }
  }

  /** The SDK's format_hex: upper-case digits and a NUL, or -1 when they do not fit. */
  method FormatHex(src: Pointer, len: nat, dst: array<byte>) returns (r: int)
    requires Readable(src, len) && src.base != dst
    modifies dst
    ensures r == if dst.Length < 2 * len + 1 then -1 else 2 * len + 1
    ensures r == -1 ==> dst[..] == old(dst[..])
    ensures r != -1 ==> Holds(dst, Hex(Slice(src, len)))
  {
    if dst.Length < 2 * len + 1 {
      return -1;
    }
    var i := 0;
    while i < len
      invariant i <= len
      invariant dst[..2 * i] == Hex(Slice(src, i))
    {
      var c := src.base[src.index + i];
      dst[2 * i] := HexDigit(c / 16);
      dst[2 * i + 1] := HexDigit(c % 16);
      i := i + 1;
      assert Slice(src, i) == Slice(src, i - 1) + [c];
      assert dst[..2 * i] == dst[..2 * (i - 1)] + [HexDigit(c / 16), HexDigit(c % 16)];
    }
    dst[2 * len] := 0;
    CStringOf(Hex(Slice(src, len)), dst[..]);
    return 2 * len + 1;
  }

  /** snprintf of a ready text: cut to the buffer less its NUL. */
  method Print(dst: array<byte>, text: Bytes)
    requires dst.Length >= 1
    modifies dst
    ensures |text| < dst.Length && 0 !in text ==> Holds(dst, text)
    ensures |text| >= dst.Length && 0 !in text ==> Holds(dst, text[..dst.Length - 1])
  {
    var n := if |text| < dst.Length then |text| else dst.Length - 1;
    forall i | 0 <= i < n {
      dst[i] := text[i];
    }
    dst[n] := 0;
    if 0 !in text {
      CStringOf(text[..n], dst[..]);
      assert n == |text| ==> text[..n] == text;
    }
  }

  /** "name (N bytes)" always fits its buffer. */
  lemma AttachmentLineFits(a: Attachment)
    requires ValidAttachment(a)
    ensures |AttachmentLine(a)| < MAX_ATT_NAME_LEN + 40 && 0 !in AttachmentLine(a)
  {
    assert PowerOfTen(10) == 10_000_000_000;
    DecimalLength(a.size, 10, 10_000_000_000);
    TextHasNoNul(a.name, false);
  }

  class Ui {
    const from: array<byte>
    const to: array<byte>
    const subject: array<byte>
    const body: array<byte>
    const request: array<byte>
    const attachment: array<byte>
    const attHash: array<byte>
    const pairs: array<TagValue>

    ghost function Repr(): set<object> {
      {from, to, subject, body, request, attachment, attHash, pairs}
    }

    ghost predicate Valid() {
      && from.Length == MAX_FROM_LEN + 1 && to.Length == MAX_TO_LEN + 1
      && subject.Length == MAX_SUBJECT_LEN + 1 && body.Length == MAX_BODY_LEN + 1
      && request.Length == 2 * CHALLENGE_LEN + 1 && attachment.Length == MAX_ATT_NAME_LEN + 40
      && attHash.Length == 2 * ATT_HASH_LEN + 1 && pairs.Length == 7
      && from != to && from != subject && from != body && from != request && from != attachment && from != attHash
      && to != subject && to != body && to != request && to != attachment && to != attHash
      && subject != body && subject != request && subject != attachment && subject != attHash
      && body != request && body != attachment && body != attHash
      && request != attachment && request != attHash && attachment != attHash
    }

    constructor ()
      ensures Valid() && fresh(Repr())
    {
      from := new byte[MAX_FROM_LEN + 1](_ => 0);
      to := new byte[MAX_TO_LEN + 1](_ => 0);
      subject := new byte[MAX_SUBJECT_LEN + 1](_ => 0);
      body := new byte[MAX_BODY_LEN + 1](_ => 0);
      request := new byte[2 * CHALLENGE_LEN + 1](_ => 0);
      var name := new byte[MAX_ATT_NAME_LEN + 40](_ => 0);
      attachment := name;
      attHash := new byte[2 * ATT_HASH_LEN + 1](_ => 0);
      pairs := new TagValue[7](_ => TagValue("", name));
    }

    method FillTexts(tx: EmailRecord, ghost bases: set<array<byte>>)
      requires Valid() && bases !! Repr() && tx.ReadsFrom(bases) && Wire.Valid(tx.View(bases))
      modifies from, to, subject, body
      ensures var e := tx.View(bases);
              Holds(from, e.from) && Holds(to, e.to) && Holds(subject, e.subject) && Holds(body, e.body)
    {
      ghost var e := tx.View(bases);
      TextHasNoNul(e.from, false);
      TextHasNoNul(e.to, false);
      TextHasNoNul(e.subject, false);
      TextHasNoNul(e.body, true);
      hide Holds, Slice, TextOk;
      CopyField(from, tx.from, tx.fromLen);
      CopyField(to, tx.to, tx.toLen);
      CopyField(subject, tx.subject, tx.subjectLen);
      CopyField(body, tx.body, tx.bodyLen);
    }

    method FillFile(tx: EmailRecord, ghost bases: set<array<byte>>)
      requires Valid() && bases !! Repr() && tx.FileIn(bases) && tx.hasAttachment != 0
      requires ValidAttachment(tx.FileView(bases).value)
      modifies attachment, attHash
      ensures var f := tx.FileView(bases).value;
              Holds(attachment, AttachmentLine(f)) && Holds(attHash, Hex(f.hash))
    {
      ghost var f := tx.FileView(bases).value;
      TextHasNoNul(f.name, false);
      AttachmentLineFits(f);
      var name := new byte[MAX_ATT_NAME_LEN + 1](_ => 0);
      CopyField(name, tx.attName, tx.attNameLen);
      hide Slice, Decimal, Hex, TextOk;
      Print(attachment, CString(name[..]) + OPEN + Decimal(tx.attSize) + CLOSE);
      var r := FormatHex(tx.attHash, ATT_HASH_LEN, attHash);
      if r == -1 {
        assert false; // the buffer is sized for the digits
      }
    }

    /** nbgl_useCaseReview: each value is read as a C string. */
    method Review(n: nat) returns (shown: seq<Pair>)
      requires n <= pairs.Length
      ensures |shown| == n
      ensures forall i :: 0 <= i < n ==> shown[i].item == pairs[i].item && Holds(pairs[i].value, shown[i].value)
    {
      shown := [];
      while |shown| < n
        invariant |shown| <= n
        invariant forall i :: 0 <= i < |shown| ==>
          shown[i].item == pairs[i].item && Holds(pairs[i].value, shown[i].value)
      {
        var p := pairs[|shown|];
        shown := shown + [Pair(p.item, CString(p.value[..]))];
      }
    }

    function Tags(withFile: bool): (t: seq<TagValue>)
      ensures |t| == if withFile then 7 else 5
    {
      [TagValue("From", from), TagValue("To", to), TagValue("Subject", subject), TagValue("Message", body)]
      + (if withFile then [TagValue("Attachment", attachment), TagValue("Attachment SHA-256", attHash)] else [])
      + [TagValue("Request ID", request)]
    }

    /** The tag/value list; its seven slots are never exceeded. */
    method SetPairs(withFile: bool) returns (n: nat)
      requires pairs.Length == 7
      modifies pairs
      ensures n == |Tags(withFile)| && pairs[..n] == Tags(withFile)
    {
      n := 0;
      pairs[n], n := TagValue("From", from), n + 1;
      pairs[n], n := TagValue("To", to), n + 1;
      pairs[n], n := TagValue("Subject", subject), n + 1;
      pairs[n], n := TagValue("Message", body), n + 1;
      if withFile {
        pairs[n], n := TagValue("Attachment", attachment), n + 1;
        pairs[n], n := TagValue("Attachment SHA-256", attHash), n + 1;
      }
      pairs[n], n := TagValue("Request ID", request), n + 1;
    }

    ghost predicate Filled(e: Email)
      reads from, to, subject, body, request, attachment, attHash
    {
      && Holds(from, e.from) && Holds(to, e.to) && Holds(subject, e.subject) && Holds(body, e.body)
      && Holds(request, Hex(e.challenge))
      && (e.attachment.Some? ==>
            Holds(attachment, AttachmentLine(e.attachment.value)) && Holds(attHash, Hex(e.attachment.value.hash)))
    }

    lemma ShownIsScreen(e: Email, shown: seq<Pair>)
      requires Filled(e)
      requires var t := Tags(e.attachment.Some?);
               && |shown| == |t|
               && forall i :: 0 <= i < |t| ==> shown[i].item == t[i].item && Holds(t[i].value, shown[i].value)
      ensures shown == ScreenOf(e)
    {
      hide Hex, AttachmentLine, CString;
      var t, s := Tags(e.attachment.Some?), ScreenOf(e);
      assert forall i :: 0 <= i < |t| ==> shown[i].item == t[i].item && Holds(t[i].value, shown[i].value);
      assert shown[0] == s[0] && shown[1] == s[1] && shown[2] == s[2] && shown[3] == s[3] && shown[4] == s[4];
      if e.attachment.Some? {
        assert shown[5] == s[5] && shown[6] == s[6];
      }
    }

    /** Every buffer the list refers to, in the order the source fills them. */
    method Fill(tx: EmailRecord, ghost bases: set<array<byte>>)
      requires Valid() && bases !! Repr() && tx.ReadsFrom(bases) && Wire.Valid(tx.View(bases))
      modifies from, to, subject, body, request, attachment, attHash
      ensures Filled(tx.View(bases))
    {
      hide Hex, AttachmentLine, Holds, Slice;
      FillTexts(tx, bases);
      var r := FormatHex(tx.challenge, CHALLENGE_LEN, request);
      if r == -1 {
        assert false; // the buffer is sized for the digits
      }
      if tx.hasAttachment != 0 {
        FillFile(tx, bases);
      }
    }

    /**
     The review of a well-formed email shows its screen: nothing is cut, nothing is missing, and whoever reads the
     lines by their tags reads that email.
     */
    method ShowEmail(tx: EmailRecord, ghost bases: set<array<byte>>) returns (shown: seq<Pair>)
      requires Valid() && bases !! Repr() && tx.ReadsFrom(bases) && Wire.Valid(tx.View(bases))
      modifies Repr()
      ensures shown == ScreenOf(tx.View(bases)) && ReadScreen(shown) == Some(tx.View(bases))
    {
      hide Hex, AttachmentLine, Holds, Tags, Slice, Filled, ReadScreen, ScreenOf;
      Fill(tx, bases);
      var n := SetPairs(tx.hasAttachment != 0);
      shown := Review(n);
      assert forall i :: 0 <= i < n ==> pairs[i] == pairs[..n][i];
      ShownIsScreen(tx.View(bases), shown);
      ScreenReadsBack(tx.View(bases));
    }
  }
}
