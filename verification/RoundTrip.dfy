/**
 Both round trips between the parser and the printer, on the records and buffers themselves.
 */
module RoundTrip {
  import opened ByteString
  import opened Memory
  import opened Wire
  import opened WireTheorems
  import opened Parser
  import opened Printer

  /** A record whose parts are those of an accepted payload stands for the decoded email. */
  lemma RecordIsDecoded(tx: EmailRecord, bases: set<array<byte>>, b: Bytes)
    requires Accepted(b) && tx.ReadsFrom(bases) && tx.Parts(bases) == Scan([], b).parts
    ensures tx.View(bases) == Decode(b)
  {
    hide Slice, Scan, Verdict;
    AcceptedParts(b);
  }

  /** Parsing a buffer from its start: the status of the payload, and on success its email. */
  method Parse(raw: array<byte>, len: nat, tx: EmailRecord) returns (status: ParserStatus)
    requires len <= raw.Length
    modifies tx
    ensures status == StatusOf(raw[..len])
    ensures status == ParsingOk ==>
              tx.ReadsFrom({raw}) && tx.hasAttachment <= 1 && tx.View({raw}) == Decode(raw[..len])
  {
    hide Scan, Verdict, Slice;
    var buf := new Buffer(raw, len);
    assert buf.Rest() == raw[..len];
    status := Deserialize(buf, tx);
    if status == ParsingOk {
      RecordIsDecoded(tx, {raw}, raw[..len]);
    }
  }

  /** Printing what was parsed reproduces the payload byte for byte and touches nothing after it. */
  method PrintParsed(raw: array<byte>, len: nat, tx: EmailRecord, out: array<byte>)
    returns (status: ParserStatus, n: int)
    requires len <= raw.Length && raw != out && out.Length >= MAX_TX_LEN
    modifies tx, out
    ensures status == StatusOf(raw[..len])
    ensures status == ParsingOk ==> n == len && out[..] == raw[..len] + old(out[len..])
    ensures status != ParsingOk ==> out[..] == old(out[..])
  {
    hide Scan, Verdict, Slice, Encode, Head, FieldsAhead;
    status := Parse(raw, len, tx);
    n := -1;
    if status == ParsingOk {
      ApartIsAhead(tx, {raw}, out);
      n := Serialize(tx, {raw}, out, MAX_TX_LEN);
    }
  }

  lemma FlagOf(tx: EmailRecord, bases: set<array<byte>>)
    requires tx.ReadsFrom(bases)
    ensures tx.View(bases).attachment.None? <==> tx.hasAttachment == 0
  {
  }

  method Print(tx: EmailRecord, ghost bases: set<array<byte>>, out: array<byte>) returns (n: int)
    requires tx.ReadsFrom(bases) && out !in bases && |Encode(tx.View(bases))| <= MAX_TX_LEN <= out.Length
    modifies out
    ensures n == |Encode(tx.View(bases))| && out[..n] == Encode(tx.View(bases))
  {
    hide Slice, Encode, Head, FieldsAhead, EmailRecord.View, EmailRecord.ReadsFrom;
    ApartIsAhead(tx, bases, out);
    n := Serialize(tx, bases, out, MAX_TX_LEN);
  }

  /** Parsing what was printed from a well-formed record within the cap gives its email back. */
  method ParsePrinted(tx: EmailRecord, ghost bases: set<array<byte>>, out: array<byte>, copy: EmailRecord)
    returns (n: int, status: ParserStatus)
    requires tx.ReadsFrom(bases) && out !in bases && tx != copy
    requires Valid(tx.View(bases)) && |Encode(tx.View(bases))| <= MAX_TX_LEN <= out.Length
    modifies out, copy
    ensures n == |Encode(tx.View(bases))| && status == ParsingOk
    ensures copy.ReadsFrom({out}) && copy.View({out}) == tx.View(bases)
    ensures copy.hasAttachment == if tx.hasAttachment == 0 then 0 else 1
  {
    hide StatusOf, Decode, Encode, Valid, EmailRecord.View, EmailRecord.ReadsFrom;
    EncodingAccepted(tx.View(bases));
    FlagOf(tx, bases);
    n := Print(tx, bases, out);
    status := Parse(out, n, copy);
    FlagOf(copy, {out});
  }
}
