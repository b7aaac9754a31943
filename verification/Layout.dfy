/**
 Where each byte of a payload stands, in positions and literal numbers: the layout table of
 src/transaction/tx_types.h, and the status of every byte string read off its positions.
 */
module Layout {
  import opened ByteString
  import opened Wire
  import opened WireTheorems

  // ---- what stands at which position of a byte string ----

  /** A length byte of 1 to max at position i, and that many printable bytes behind it. */
  predicate TextAt(b: Bytes, i: nat, max: nat) {
    i < |b| && 1 <= b[i] <= max && i + 1 + b[i] <= |b| && TextOk(b[i + 1..i + 1 + b[i]], false)
  }

  predicate HasFrom(b: Bytes) {
    |b| >= 16 && TextAt(b, 16, 128)
  }

  function ToAt(b: Bytes): (p: nat)
    requires HasFrom(b)
    ensures p <= |b|
  {
    17 + b[16]
  }

  predicate HasTo(b: Bytes) {
    HasFrom(b) && TextAt(b, ToAt(b), 128)
  }

  function SubjectAt(b: Bytes): (p: nat)
    requires HasTo(b)
    ensures p <= |b|
  {
    ToAt(b) + 1 + b[ToAt(b)]
  }

  predicate HasSubject(b: Bytes) {
    HasTo(b) && TextAt(b, SubjectAt(b), 200)
  }

  /** The position of the two length bytes of the body. */
  function BodyAt(b: Bytes): (p: nat)
    requires HasSubject(b)
    ensures p <= |b|
  {
    SubjectAt(b) + 1 + b[SubjectAt(b)]
  }

  predicate HasBodyLength(b: Bytes) {
    HasSubject(b) && BodyAt(b) + 2 <= |b|
  }

  function BodyLength(b: Bytes): nat
    requires HasBodyLength(b)
  {
    0x100 * (b[BodyAt(b)] as int) + b[BodyAt(b) + 1]
  }

  /** The body is of 1 to 2048 bytes and all of them are there. */
  predicate BodyInBounds(b: Bytes) {
    HasBodyLength(b) && 1 <= BodyLength(b) <= 2048 && BodyAt(b) + 2 + BodyLength(b) <= |b|
  }

  predicate HasBody(b: Bytes) {
    BodyInBounds(b) && TextOk(b[BodyAt(b) + 2..BodyAt(b) + 2 + BodyLength(b)], true)
  }

  /** The position of the byte that counts attachments. */
  function FileAt(b: Bytes): (p: nat)
    requires BodyInBounds(b)
    ensures p <= |b|
  {
    BodyAt(b) + 2 + BodyLength(b)
  }

  /** No attachment, or one with its name, four bytes of size and a 32-byte hash. */
  predicate HasFile(b: Bytes) {
    && HasBody(b) && FileAt(b) < |b|
    && (b[FileAt(b)] == 0
        || (b[FileAt(b)] == 1 && TextAt(b, FileAt(b) + 1, 64) && FileAt(b) + 2 + b[FileAt(b) + 1] + 36 <= |b|))
  }

  /** The position after the last part. */
  function End(b: Bytes): nat
    requires HasFile(b)
  {
    if b[FileAt(b)] == 0 then FileAt(b) + 1 else FileAt(b) + 2 + b[FileAt(b) + 1] + 36
  }

  // ---- the status of every byte string ----

  /** A text stands at i exactly when the bytes from i on begin with a length-prefixed text. */
  lemma TextAtIff(b: Bytes, i: nat, max: byte)
    requires i <= |b|
    ensures TextAt(b, i, max) <==> exists t :: ValidText(t, max) && TextField(t) <= b[i..]
  {
    if TextAt(b, i, max) {
      var t := b[i + 1..i + 1 + b[i]];
      assert TextField(t) == b[i..i + 1 + b[i]] == b[i..][..1 + b[i]];
    }
    forall t | ValidText(t, max) && TextField(t) <= b[i..]
      ensures TextAt(b, i, max)
    {
      assert b[i] == b[i..][0] == TextField(t)[0];
      assert b[i + 1..i + 1 + b[i]] == b[i..][1..1 + |t|] == TextField(t)[1..] == t;
    }
  }

  lemma ReadTextAt(b: Bytes, i: nat, max: nat)
    requires i <= |b|
    ensures TextAt(b, i, max) <==> ReadText(b[i..], max).Got?
    ensures TextAt(b, i, max) ==> i < |b| && i + 1 + b[i] <= |b| && ReadText(b[i..], max).rest == b[i + 1 + b[i]..]
  {
    var s := b[i..];
    if s != [] && 1 + s[0] <= |s| {
      assert s[1..1 + s[0]] == b[i + 1..i + 1 + b[i]] && s[1 + s[0]..] == b[i + 1 + b[i]..];
    }
  }

  /** The parts read so far are followed by the text at position i, or the stage fails there. */
  lemma TextStage(b: Bytes, ps: seq<Part>, i: nat) returns (qs: seq<Part>)
    requires 1 <= |ps| <= 3 && i <= |b| && Scan([], b) == Scan(ps, b[i..])
    ensures if TextAt(b, i, MaxLen(|ps|))
            then |qs| == |ps| + 1 && Scan([], b) == Scan(qs, b[i + 1 + b[i]..])
            else Verdict(Scan([], b)) == StageError(|ps|, b[i..])
  {
    hide ReadText, TextAt, Scan, Verdict, StageError;
    ReadTextAt(b, i, MaxLen(|ps|));
    ScanText(ps, b[i..]);
    qs := if TextAt(b, i, MaxLen(|ps|)) then ps + [ReadText(b[i..], MaxLen(|ps|)).part] else ps;
  }

  lemma HeaderStatus(b: Bytes) returns (ps: seq<Part>)
    requires |b| <= 2600
    ensures |b| < 16 ==> StatusOf(b) == ChallengeParsingError
    ensures |b| >= 16 && !HasFrom(b) ==> StatusOf(b) == FromParsingError
    ensures HasFrom(b) && !HasTo(b) ==> StatusOf(b) == ToParsingError
    ensures HasTo(b) && !HasSubject(b) ==> StatusOf(b) == SubjectParsingError
    ensures HasSubject(b) ==> |ps| == 4 && Scan([], b) == Scan(ps, b[BodyAt(b)..])
  {
    hide TextAt, Scan, Verdict;
    ScanChallenge(b);
    ps := [];
    if |b| >= 16 {
      ps := TextStage(b, [Text(b[..16])], 16);
      if HasFrom(b) {
        ps := TextStage(b, ps, ToAt(b));
        if HasTo(b) {
          ps := TextStage(b, ps, SubjectAt(b));
        }
      }
    }
  }

  lemma ReadBodyAt(b: Bytes)
    requires HasSubject(b)
    ensures var s := b[BodyAt(b)..];
            && (BodyInBounds(b) <==> BodyFits(s))
            && (HasBody(b) <==> ReadBody(s).Got?)
            && (HasBody(b) ==> ReadBody(s).rest == b[FileAt(b)..])
  {
    hide HasSubject, TextOk;
    var s := b[BodyAt(b)..];
    if BodyInBounds(b) {
      var n := BodyLength(b);
      assert s[2..2 + n] == b[BodyAt(b) + 2..BodyAt(b) + 2 + n] && s[2 + n..] == b[FileAt(b)..];
    }
  }

  lemma BodyStatus(b: Bytes, ps: seq<Part>) returns (qs: seq<Part>)
    requires |b| <= 2600 && HasSubject(b) && |ps| == 4 && Scan([], b) == Scan(ps, b[BodyAt(b)..])
    ensures !BodyInBounds(b) ==> StatusOf(b) == BodyParsingError
    ensures BodyInBounds(b) && !HasBody(b) ==> StatusOf(b) == FieldEncodingError
    ensures HasBody(b) ==> |qs| == 5 && Scan([], b) == Scan(qs, b[FileAt(b)..])
  {
    hide HasSubject, BodyInBounds, TextOk, ReadBody, BodyFits, Scan, Verdict;
    ReadBodyAt(b);
    var s := b[BodyAt(b)..];
    ScanBody(ps, s);
    qs := if HasBody(b) then ps + [ReadBody(s).part] else ps;
  }

  lemma ReadFileAt(b: Bytes)
    requires HasBody(b)
    ensures var s := b[FileAt(b)..];
            && (HasFile(b) <==> ReadAttachment(s).Got?)
            && (HasFile(b) ==> End(b) <= |b| && ReadAttachment(s).rest == b[End(b)..])
  {
    hide BodyInBounds, TextAt, TextOk, ReadText;
    var a := FileAt(b);
    var s := b[a..];
    if a < |b| {
      assert s[0] == b[a] && s[1..] == b[a + 1..];
      ReadTextAt(b, a + 1, 64);
      if b[a] == 1 && TextAt(b, a + 1, 64) {
        var t := ReadText(s[1..], 64).rest;
        assert t == b[a + 2 + b[a + 1]..];
        assert |t| >= 36 ==> t[36..] == b[a + 2 + b[a + 1] + 36..];
      }
    }
  }

  lemma FileStatus(b: Bytes, ps: seq<Part>)
    requires |b| <= 2600 && HasBody(b) && |ps| == 5 && Scan([], b) == Scan(ps, b[FileAt(b)..])
    ensures !HasFile(b) ==> StatusOf(b) == AttachmentParsingError
    ensures HasFile(b) ==> StatusOf(b) == if End(b) == |b| then ParsingOk else WrongLengthError
  {
    hide BodyInBounds, TextOk, HasFile, ReadAttachment, Scan, Verdict;
    ReadFileAt(b);
    var s := b[FileAt(b)..];
    ScanAttachment(ps, s);
    if HasFile(b) {
      ScanEnd(ps + [ReadAttachment(s).part], ReadAttachment(s).rest);
    }
  }

  /** Each status, with the bytes that get it: no two causes share a status but the two wrong lengths. */
  lemma StatusIff(b: Bytes)
    ensures StatusOf(b) == ChallengeParsingError <==> |b| < 16
    ensures StatusOf(b) == FromParsingError <==> 16 <= |b| <= 2600 && !HasFrom(b)
    ensures StatusOf(b) == ToParsingError <==> |b| <= 2600 && HasFrom(b) && !HasTo(b)
    ensures StatusOf(b) == SubjectParsingError <==> |b| <= 2600 && HasTo(b) && !HasSubject(b)
    ensures StatusOf(b) == BodyParsingError <==> |b| <= 2600 && HasSubject(b) && !BodyInBounds(b)
    ensures StatusOf(b) == FieldEncodingError <==> |b| <= 2600 && BodyInBounds(b) && !HasBody(b)
    ensures StatusOf(b) == AttachmentParsingError <==> |b| <= 2600 && HasBody(b) && !HasFile(b)
    ensures StatusOf(b) == WrongLengthError <==> |b| > 2600 || (HasFile(b) && End(b) != |b|)
    ensures StatusOf(b) == ParsingOk <==> |b| <= 2600 && HasFile(b) && End(b) == |b|
  {
    hide TextAt, Scan, Verdict, TextOk;
    if |b| <= 2600 {
      var ps := HeaderStatus(b);
      if HasSubject(b) {
        ps := BodyStatus(b, ps);
        if HasBody(b) {
          FileStatus(b, ps);
        }
      }
    }
  }

  // ---- the layout of an encoded email ----

  /** The header: the challenge, then each text behind its length. */
  lemma HeaderLayout(e: Email)
    requires Sized(e)
    ensures var b, to := Encode(e), 17 + |e.from|;
            var subject := to + 1 + |e.to|;
            && b[..16] == e.challenge
            && b[16] == |e.from| && b[17..to] == e.from
            && b[to] == |e.to| && b[to + 1..subject] == e.to
            && b[subject] == |e.subject| && b[subject + 1..subject + 1 + |e.subject|] == e.subject
  {
    hide BodyField, AttachmentField;
  }

  /** The length of all parts before the attachment. */
  function HeadLength(e: Email): nat {
    21 + |e.from| + |e.to| + |e.subject| + |e.body|
  }

  /** The body behind two length bytes, the first one counting 256, and the number of attachments. */
  lemma BodyLayout(e: Email)
    requires Sized(e)
    ensures var b, a := Encode(e), HeadLength(e);
            var body := a - |e.body|;
            && a < |b|
            && 0x100 * (b[body - 2] as int) + b[body - 1] == |e.body| && b[body..a] == e.body
            && b[a] == (if e.attachment.None? then 0 else 1)
            && (e.attachment.None? ==> |b| == a + 1)
  {
    hide U16be, U32be;
    var head := e.challenge + TextField(e.from) + TextField(e.to) + TextField(e.subject);
    var b, n := Encode(e), |head|;
    assert b == head + (U16be(|e.body|) + e.body) + AttachmentField(e.attachment);
    assert b[n] == U16be(|e.body|)[0] && b[n + 1] == U16be(|e.body|)[1];
  }

  /** The attachment: its name behind its length, four bytes of size, the first one counting most, and the hash. */
  lemma FileLayout(e: Email)
    requires Sized(e) && e.attachment.Some?
    ensures var b, a, f := Encode(e), HeadLength(e), e.attachment.value;
            var size := a + 2 + |f.name|;
            && size + 4 <= |b|
            && b[a + 1] == |f.name| && b[a + 2..size] == f.name
            && 0x100_0000 * (b[size] as int) + 0x1_0000 * (b[size + 1] as int)
               + 0x100 * (b[size + 2] as int) + b[size + 3] == f.size
            && b[size + 4..] == f.hash
  {
    hide U16be, U32be;
    var b, a, f := Encode(e), HeadLength(e), e.attachment.value;
    var size := a + 2 + |f.name|;
    assert b[size..size + 4] == U32be(f.size);
  }

  // ---- cutting ----

  /** A text that stands at i still stands there after a cut exactly when the cut is behind it. */
  lemma CutText(whole: Bytes, n: nat, i: nat, t: Bytes, max: byte)
    requires n <= |whole| && i + 1 + |t| <= |whole| && ValidText(t, max)
    requires whole[i] == |t| && whole[i + 1..i + 1 + |t|] == t
    ensures TextAt(whole[..n], i, max) <==> n >= i + 1 + |t|
    ensures n > i ==> whole[..n][i] == |t|
  {
    hide TextOk;
    assert n >= i + 1 + |t| ==> whole[..n][i + 1..i + 1 + |t|] == t;
  }

  /** What stands in the front of an encoded email: each part exactly when the cut is behind it. */
  lemma CutHeader(e: Email, n: nat)
    requires Valid(e) && n < |Encode(e)|
    ensures var b, to := Encode(e)[..n], 17 + |e.from|;
            var subject := to + 1 + |e.to|;
            var body := subject + 1 + |e.subject|;
            && (HasFrom(b) <==> n >= to) && (HasFrom(b) ==> ToAt(b) == to)
            && (HasTo(b) <==> n >= subject) && (HasTo(b) ==> SubjectAt(b) == subject)
            && (HasSubject(b) <==> n >= body) && (HasSubject(b) ==> BodyAt(b) == body)
  {
    hide Encode, TextAt, ValidText, ValidBody, ValidAttachment;
    HeaderLayout(e);
    BodyLayout(e);
    var to := 17 + |e.from|;
    var subject := to + 1 + |e.to|;
    CutText(Encode(e), n, 16, e.from, 128);
    CutText(Encode(e), n, to, e.to, 128);
    CutText(Encode(e), n, subject, e.subject, 200);
  }

  /** The same of the body, whose two length bytes stand at p. */
  lemma CutLong(whole: Bytes, n: nat, p: nat, t: Bytes)
    requires n <= |whole| && p + 2 + |t| <= |whole| && ValidBody(t)
    requires 0x100 * (whole[p] as int) + whole[p + 1] == |t| && whole[p + 2..p + 2 + |t|] == t
    requires HasSubject(whole[..n]) <==> n >= p
    requires HasSubject(whole[..n]) ==> BodyAt(whole[..n]) == p
    ensures var b, a := whole[..n], p + 2 + |t|;
            && (BodyInBounds(b) <==> n >= a) && (HasBody(b) <==> n >= a) && (HasBody(b) ==> FileAt(b) == a)
  {
    hide TextOk, HasSubject, BodyAt;
    assert n >= p + 2 + |t| ==> whole[..n][p + 2..p + 2 + |t|] == t;
  }

  lemma CutBody(e: Email, n: nat)
    requires Valid(e) && n < |Encode(e)|
    ensures var b := Encode(e)[..n];
            && (BodyInBounds(b) <==> n >= HeadLength(e)) && (HasBody(b) <==> n >= HeadLength(e))
            && (HasBody(b) ==> FileAt(b) == HeadLength(e))
  {
    hide Encode, HasSubject, BodyInBounds, HasBody, ValidText, ValidBody, ValidAttachment;
    CutHeader(e, n);
    BodyLayout(e);
    CutLong(Encode(e), n, HeadLength(e) - |e.body| - 2, e.body);
  }

  lemma CutFile(e: Email, n: nat)
    requires Valid(e) && n < |Encode(e)|
    ensures !HasFile(Encode(e)[..n])
  {
    hide Encode, TextOk, HasBody, BodyInBounds;
    CutBody(e, n);
    BodyLayout(e);
    if e.attachment.Some? {
      FileLayout(e);
    }
  }

  /** Every strict prefix of an encoded email is refused, with the status of the part in which the cut falls. */
  lemma CutRefused(e: Email, n: nat)
    requires Valid(e) && n < |Encode(e)|
    ensures StatusOf(Encode(e)[..n])
         == if n > 2600 then WrongLengthError
            else if n < 16 then ChallengeParsingError
            else if n < 17 + |e.from| then FromParsingError
            else if n < 18 + |e.from| + |e.to| then ToParsingError
            else if n < 19 + |e.from| + |e.to| + |e.subject| then SubjectParsingError
            else if n < 21 + |e.from| + |e.to| + |e.subject| + |e.body| then BodyParsingError
            else AttachmentParsingError
  {
    hide Encode, Valid, TextAt, StatusOf, TextOk, HasFrom, HasTo, HasSubject, BodyInBounds, HasBody, HasFile;
    CutHeader(e, n);
    CutBody(e, n);
    CutFile(e, n);
    StatusIff(Encode(e)[..n]);
  }
}
