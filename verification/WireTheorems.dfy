/**
 What the parser of src/transaction/deserialize.c accepts, and how it refuses the rest.
 */
module WireTheorems {
  import opened ByteString
  import opened Wire

  // ---- soundness and completeness ----

  lemma EncodeNothing(b: Bytes)
    ensures EncodeParts([]) + b == b
  {
  }

  lemma AcceptedParts(b: Bytes)
    requires Accepted(b)
    ensures var ps := Scan([], b).parts;
            |ps| == PARTS && ValidParts(ps) && Encode(EmailOf(ps)) == b
  {
    hide EncodeParts, Encode, Valid, ValidPart, ReadPart, EmailOf;
    ScanSound([], b);
    EncodeNothing(b);
    EncodeIsParts(EmailOf(Scan([], b).parts));
  }

  /** The email carried by an accepted payload. */
  function Decode(b: Bytes): (e: Email)
    requires Accepted(b)
    ensures Valid(e) && Encode(e) == b
  {
    AcceptedParts(b);
    EmailOf(Scan([], b).parts)
  }

  lemma EncodingAccepted(e: Email)
    requires Valid(e) && |Encode(e)| <= MAX_TX_LEN
    ensures Accepted(Encode(e)) && Decode(Encode(e)) == e
  {
    hide EncodeParts, Encode, Valid;
    EncodeIsParts(e);
    ScanEncoded(PartsOf(e), []);
    assert EncodeParts(PartsOf(e)) + [] == Encode(e);
  }

  /** A payload is accepted exactly when it fits the cap and encodes a well-formed email; that email is unique. */
  lemma AcceptedIff(b: Bytes)
    ensures Accepted(b) <==> |b| <= MAX_TX_LEN && exists e :: Valid(e) && Encode(e) == b
    ensures forall e :: Accepted(b) && Valid(e) && Encode(e) == b ==> e == Decode(b)
  {
    hide Encode, Valid, Verdict, Scan;
    if Accepted(b) {
      assert Valid(Decode(b)) && Encode(Decode(b)) == b;
    }
    forall e | Valid(e) && Encode(e) == b && |b| <= MAX_TX_LEN
      ensures Accepted(b) && e == Decode(b)
    {
      EncodingAccepted(e);
    }
  }

  lemma PeelText(a: Bytes, x: Bytes, b: Bytes, y: Bytes)
    requires |a| < 0x100 && |b| < 0x100 && TextField(a) + x == TextField(b) + y
    ensures a == b && x == y
  {
    var s := TextField(a) + x;
    assert s[0] == |a| && s[0] == |b|;
    assert a == s[1..1 + |a|] && b == s[1..1 + |b|];
    assert x == s[1 + |a|..] && y == s[1 + |b|..];
  }

  lemma PeelBody(a: Bytes, x: Bytes, b: Bytes, y: Bytes)
    requires |a| < 0x1_0000 && |b| < 0x1_0000 && BodyField(a) + x == BodyField(b) + y
    ensures a == b && x == y
  {
    var s := BodyField(a) + x;
    ReadWritten(|a|, 0, a + x);
    ReadWritten(|b|, 0, b + y);
    assert s == U16be(|a|) + (a + x) && s == U16be(|b|) + (b + y);
    assert a == s[2..2 + |a|] && b == s[2..2 + |b|];
    assert x == s[2 + |a|..] && y == s[2 + |b|..];
  }

  lemma FileFieldInjective(f: Attachment, g: Attachment)
    requires |f.name| < 0x100 && |g.name| < 0x100
    requires AttachmentField(Some(f)) == AttachmentField(Some(g))
    ensures f == g
  {
    hide TextField, U32be;
    var x, y := U32be(f.size) + f.hash, U32be(g.size) + g.hash;
    var s := AttachmentField(Some(f));
    assert s[1..] == TextField(f.name) + x && s[1..] == TextField(g.name) + y;
    PeelText(f.name, x, g.name, y);
    ReadWritten(0, f.size, f.hash);
    ReadWritten(0, g.size, g.hash);
    assert f.hash == x[4..] && g.hash == y[4..];
  }

  lemma AttachmentFieldInjective(a: Option<Attachment>, b: Option<Attachment>)
    requires (a.Some? ==> |a.value.name| < 0x100) && (b.Some? ==> |b.value.name| < 0x100)
    requires AttachmentField(a) == AttachmentField(b)
    ensures a == b
  {
    assert AttachmentField(a)[0] == AttachmentField(b)[0];
    hide TextField, U32be;
    if a.Some? && b.Some? {
      FileFieldInjective(a.value, b.value);
    }
  }

  /** The encoding tells any two emails apart whose lengths fit their prefixes, well formed or not. */
  lemma EncodeInjective(e: Email, f: Email)
    requires Sized(e) && Sized(f) && Encode(e) == Encode(f)
    ensures e == f
  {
    hide TextField, BodyField, AttachmentField;
    var e4, f4 := AttachmentField(e.attachment), AttachmentField(f.attachment);
    var e3, f3 := BodyField(e.body) + e4, BodyField(f.body) + f4;
    var e2, f2 := TextField(e.subject) + e3, TextField(f.subject) + f3;
    var e1, f1 := TextField(e.to) + e2, TextField(f.to) + f2;
    var e0, f0 := TextField(e.from) + e1, TextField(f.from) + f1;
    assert Encode(e) == e.challenge + e0 && Encode(f) == f.challenge + f0;
    assert e.challenge == Encode(e)[..CHALLENGE_LEN] == f.challenge;
    assert e0 == Encode(e)[CHALLENGE_LEN..] == f0;
    PeelText(e.from, e1, f.from, f1);
    PeelText(e.to, e2, f.to, f2);
    PeelText(e.subject, e3, f.subject, f3);
    PeelBody(e.body, e4, f.body, f4);
    AttachmentFieldInjective(e.attachment, f.attachment);
  }

  /** Whatever is written, only a well-formed email within the cap is accepted. */
  lemma EncodingAcceptedIff(e: Email)
    requires Sized(e)
    ensures Accepted(Encode(e)) <==> Valid(e) && |Encode(e)| <= MAX_TX_LEN
    ensures Accepted(Encode(e)) ==> Decode(Encode(e)) == e
  {
    hide Encode, Valid, Sized, Scan, Verdict;
    if Accepted(Encode(e)) {
      EncodeInjective(e, Decode(Encode(e)));
    }
    if Valid(e) && |Encode(e)| <= MAX_TX_LEN {
      EncodingAccepted(e);
    }
  }

  // ---- which stage fails ----

  /** b is well-formed parts followed by something that does not begin with the next part. */
  ghost predicate FirstFailure(b: Bytes, ps: seq<Part>, rest: Bytes) {
    && ValidParts(ps)
    && b == EncodeParts(ps) + rest
    && (|ps| < PARTS ==> forall p, t :: ValidPart(|ps|, p) ==> rest != EncodePart(|ps|, p) + t)
  }

  lemma ScanStops(ps: seq<Part>, rest: Bytes)
    requires |ps| <= PARTS
    requires |ps| < PARTS ==> forall p, t :: ValidPart(|ps|, p) ==> rest != EncodePart(|ps|, p) + t
    ensures Scan(ps, rest) == Parsed(ps, rest)
  {
    hide EncodePart, ValidPart, ReadPart;
    if |ps| < PARTS && ReadPart(|ps|, rest).Got? {
      ReadSound(|ps|, rest);
    }
  }

  /** The status is that of the first part of the grammar that fails, every earlier part being well formed. */
  lemma LeftmostFailure(b: Bytes)
    requires |b| <= MAX_TX_LEN
    ensures exists ps, rest :: FirstFailure(b, ps, rest)
    ensures forall ps, rest :: FirstFailure(b, ps, rest) ==>
              && (|ps| == 0 ==> StatusOf(b) == ChallengeParsingError)
              && (|ps| == 1 ==> StatusOf(b) == FromParsingError)
              && (|ps| == 2 ==> StatusOf(b) == ToParsingError)
              && (|ps| == 3 ==> StatusOf(b) == SubjectParsingError)
              && (|ps| == 4 ==> StatusOf(b) == if BodyFits(rest) then FieldEncodingError else BodyParsingError)
              && (|ps| == 5 ==> StatusOf(b) == AttachmentParsingError)
              && (|ps| == 6 ==> StatusOf(b) == if rest == [] then ParsingOk else WrongLengthError)
  {
    hide EncodePart, ValidPart, ReadPart, EncodeParts, BodyFits;
    var r := Scan([], b);
    ScanSound([], b);
    EncodeNothing(b);
    forall p, t | |r.parts| < PARTS && ValidPart(|r.parts|, p)
      ensures r.rest != EncodePart(|r.parts|, p) + t
    {
      ReadEncoded(|r.parts|, p, t);
    }
    assert FirstFailure(b, r.parts, r.rest);
    forall ps, rest | FirstFailure(b, ps, rest)
      ensures r == Parsed(ps, rest)
    {
      ScanEncoded(ps, rest);
      ScanStops(ps, rest);
    }
  }

  lemma EncodingErrorShape(b: Bytes) returns (ps: seq<Part>, t: Bytes, rest: Bytes)
    requires |b| <= MAX_TX_LEN && StatusOf(b) == FieldEncodingError
    ensures |ps| == 4 && ValidParts(ps) && 1 <= |t| <= MAX_BODY_LEN && !TextOk(t, true)
    ensures b == EncodeParts(ps) + (BodyField(t) + rest)
  {
    hide EncodePart, ValidPart, EncodeParts, Scan, TextOk;
    var r := Scan([], b);
    ScanSound([], b);
    EncodeNothing(b);
    var n := ReadU16be(r.rest);
    ps, t, rest := r.parts, r.rest[2..2 + n], r.rest[2 + n..];
    assert r.rest == BodyField(t) + rest;
  }

  lemma ForbiddenBody(ps: seq<Part>, t: Bytes, rest: Bytes)
    requires |ps| == 4 && ValidParts(ps) && 1 <= |t| <= MAX_BODY_LEN && !TextOk(t, true)
    requires |EncodeParts(ps) + (BodyField(t) + rest)| <= MAX_TX_LEN
    ensures StatusOf(EncodeParts(ps) + (BodyField(t) + rest)) == FieldEncodingError
  {
    hide EncodePart, ValidPart, EncodeParts, Scan, ReadBody, BodyField, BodyFits, TextOk, Verdict;
    var tail := BodyField(t) + rest;
    ReadBodyField(t, rest);
    ScanEncoded(ps, tail);
    ScanBody(ps, tail);
  }

  /** FIELD_ENCODING_ERROR means exactly: a body within bounds that holds a forbidden byte. */
  lemma EncodingErrorIff(b: Bytes)
    requires |b| <= MAX_TX_LEN
    ensures StatusOf(b) == FieldEncodingError <==>
            exists ps, t, rest ::
              && |ps| == 4 && ValidParts(ps) && 1 <= |t| <= MAX_BODY_LEN && !TextOk(t, true)
              && b == EncodeParts(ps) + (BodyField(t) + rest)
  {
    if StatusOf(b) == FieldEncodingError {
      var ps, t, rest := EncodingErrorShape(b);
    }
    forall ps, t, rest
      | && |ps| == 4 && ValidParts(ps) && 1 <= |t| <= MAX_BODY_LEN && !TextOk(t, true)
        && b == EncodeParts(ps) + (BodyField(t) + rest)
      ensures StatusOf(b) == FieldEncodingError
    {
      ForbiddenBody(ps, t, rest);
    }
  }

  // ---- extending ----

  /** Anything after a complete email is refused for its length. */
  lemma ExtensionRefused(e: Email, x: Bytes)
    requires Valid(e) && x != []
    ensures StatusOf(Encode(e) + x) == WrongLengthError
  {
    hide EncodeParts, Encode, Valid;
    EncodeIsParts(e);
    ScanEncoded(PartsOf(e), x);
  }

  /** The accepted payloads are prefix-free. */
  lemma AcceptedPrefixFree(a: Bytes, b: Bytes)
    requires Accepted(a) && Accepted(b) && a <= b
    ensures a == b
  {
    hide Encode, Valid, Scan, Verdict;
    assert b == Encode(Decode(a)) + b[|a|..];
    if |a| < |b| {
      ExtensionRefused(Decode(a), b[|a|..]);
    }
  }

  // ---- lengths against the cap ----

  function TextLengths(e: Email): nat {
    |e.from| + |e.to| + |e.subject| + |e.body|
    + (match e.attachment case None => 0 case Some(a) => |a.name|)
  }

  lemma EncodedLength(e: Email)
    requires Sized(e)
    ensures |Encode(e)| == TextLengths(e) + if e.attachment.None? then 22 else 27 + |e.attachment.value.hash|
  {
  }

  /** Without an attachment every well-formed email is accepted; with one, exactly those of at most 2541 text bytes. */
  lemma AcceptanceArithmetic(e: Email)
    requires Valid(e)
    ensures e.attachment.None? ==> |Encode(e)| <= 2526 && Accepted(Encode(e))
    ensures e.attachment.Some? ==> (Accepted(Encode(e)) <==> TextLengths(e) <= 2541)
  {
    EncodedLength(e);
    hide Encode, Scan, Verdict;
    if |Encode(e)| <= MAX_TX_LEN {
      EncodingAccepted(e);
    }
  }

  function Letters(n: nat): (t: Bytes)
    ensures |t| == n && TextOk(t, false) && TextOk(t, true)
  {
    seq(n, _ => 0x61)
  }

  /** Both bounds are reached: 2526 bytes without an attachment, 2627 refused bytes with one. */
  lemma AcceptanceIsTight() returns (plain: Email, heavy: Email)
    ensures Valid(plain) && |Encode(plain)| == 2526 && Accepted(Encode(plain))
    ensures Valid(heavy) && |Encode(heavy)| == 2627 && StatusOf(Encode(heavy)) == WrongLengthError
  {
    plain := Email(Letters(16), Letters(128), Letters(128), Letters(200), Letters(2048), None);
    heavy := plain.(attachment := Some(Attachment(Letters(64), 0, Letters(32))));
    EncodedLength(plain);
    EncodedLength(heavy);
    AcceptanceArithmetic(plain);
  }
}
