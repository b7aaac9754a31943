/**
 What the review of src/ui/nbgl_display_transaction.c shows for an email, and why those
 strings determine every byte of it.
 */
module Screen {
  import opened ByteString
  import opened Wire
  import opened WireTheorems

  /** One tag/value line of the review. */
  datatype Pair = Pair(item: string, value: Bytes)

  // The fixed text of "name (N bytes)".
  const OPEN: Bytes := [' ' as int, '(' as int]
  const CLOSE: Bytes := [' ' as int, 'b' as int, 'y' as int, 't' as int, 'e' as int, 's' as int, ')' as int]

  function HexDigit(n: nat): (d: byte)
    requires n < 16
    ensures d != 0
  {
    if n < 10 then '0' as int + n else 'A' as int + n - 10
  }

  function Hex(b: Bytes): (h: Bytes)
    ensures |h| == 2 * |b| && 0 !in h
  {
    if b == [] then []
    else Hex(b[..|b| - 1]) + [HexDigit(b[|b| - 1] / 16), HexDigit(b[|b| - 1] % 16)]
  }

  predicate AreDigits(d: Bytes) {
    d != [] && forall i :: 0 <= i < |d| ==> 0x30 <= d[i] <= 0x39
  }

  /** The decimal digits of n, as "%u" prints them: no zero in front. */
  function Decimal(n: nat): (d: Bytes)
    ensures AreDigits(d)
    ensures if n == 0 then d == [0x30] else d[0] != 0x30
  {
    if n < 10 then [0x30 + n] else Decimal(n / 10) + [0x30 + n % 10]
  }

  function AttachmentLine(a: Attachment): Bytes {
    a.name + OPEN + Decimal(a.size) + CLOSE
  }

  function FileLines(a: Option<Attachment>): seq<Pair> {
    match a
    case None => []
    case Some(f) => [Pair("Attachment", AttachmentLine(f)), Pair("Attachment SHA-256", Hex(f.hash))]
  }

  function ScreenOf(e: Email): (s: seq<Pair>)
    ensures |s| == (if e.attachment.None? then 5 else 7)
  {
    [Pair("From", e.from), Pair("To", e.to), Pair("Subject", e.subject), Pair("Message", e.body)]
    + FileLines(e.attachment)
    + [Pair("Request ID", Hex(e.challenge))]
  }

  // ---- reading the strings back ----

  /** The value of an upper-case hexadecimal digit. */
  function DigitValue(c: byte): (r: Option<nat>)
    ensures r.Some? ==> r.value < 16
  {
    if 0x30 <= c <= 0x39 then Some(c - 0x30) else if 0x41 <= c <= 0x46 then Some(c - 0x41 + 10) else None
  }

  /** Two digits a byte, the first one counting sixteen. */
  function ReadHex(h: Bytes): Option<Bytes> {
    if h == [] then Some([])
    else if |h| == 1 then None
    else
      var high, low, rest := DigitValue(h[0]), DigitValue(h[1]), ReadHex(h[2..]);
      if high.None? || low.None? || rest.None? then None
      else Some([16 * high.value + low.value] + rest.value)
  }

  lemma {:induction false} HexCons(x: byte, b: Bytes)
    ensures Hex([x] + b) == [HexDigit(x / 16), HexDigit(x % 16)] + Hex(b)
  {
    var s := [x] + b;
    if b == [] {
      assert s[..0] == [];
    } else {
      HexCons(x, b[..|b| - 1]);
      assert s[..|s| - 1] == [x] + b[..|b| - 1];
    }
  }

  lemma DigitReadsBack(n: nat)
    requires n < 16
    ensures DigitValue(HexDigit(n)) == Some(n)
  {
  }

  /** The digits shown are those of the bytes: reading them gives the bytes back. */
  lemma {:induction false} HexReadsBack(b: Bytes)
    ensures ReadHex(Hex(b)) == Some(b)
  {
    if b != [] {
      var x, rest := b[0], b[1..];
      assert b == [x] + rest;
      HexCons(x, rest);
      HexReadsBack(rest);
      DigitReadsBack(x / 16);
      DigitReadsBack(x % 16);
      hide DigitValue, HexDigit;
      assert Hex(b)[2..] == Hex(rest);
    }
  }

  /** The number that decimal digits stand for. */
  function Value(d: Bytes): int {
    if d == [] then 0 else 10 * Value(d[..|d| - 1]) + (d[|d| - 1] - '0' as int)
  }

  /** The digits shown are those of the number: reading them gives it back. */
  lemma {:induction false} DecimalReadsBack(n: nat)
    ensures Value(Decimal(n)) == n
  {
    var d := Decimal(n);
    if n >= 10 {
      DecimalReadsBack(n / 10);
      assert d[..|d| - 1] == Decimal(n / 10);
    } else {
      assert d[..0] == [];
    }
  }

  function PowerOfTen(k: nat): nat {
    if k == 0 then 1 else 10 * PowerOfTen(k - 1)
  }

  /** A number below 10^k takes at most k digits. */
  lemma {:induction false} DecimalLength(n: nat, k: nat, bound: nat)
    requires k >= 1 && n < bound && bound == PowerOfTen(k)
    ensures |Decimal(n)| <= k
  {
    if n >= 10 {
      assert k >= 2;
      DecimalLength(n / 10, k - 1, PowerOfTen(k - 1));
    }
  }

  /** The index of the last opening bracket, -1 if there is none. */
  function LastBracket(s: Bytes): (k: int)
    ensures -1 <= k < |s|
  {
    if s == [] then -1
    else if s[|s| - 1] == 0x28 then |s| - 1
    else LastBracket(s[..|s| - 1])
  }

  /** The bracket before the digits is the last one, whatever the name holds. */
  lemma {:induction false} BracketBeforeDigits(p: Bytes, d: Bytes)
    requires forall i :: 0 <= i < |d| ==> 0x30 <= d[i] <= 0x39
    ensures LastBracket(p + OPEN + d) == |p| + 1
  {
    var s := p + OPEN + d;
    if d != [] {
      assert s[..|s| - 1] == p + OPEN + d[..|d| - 1];
      BracketBeforeDigits(p, d[..|d| - 1]);
    }
  }

  /** "name (N bytes)", taken apart at its last bracket. */
  function ReadAttachmentLine(s: Bytes): Option<(Bytes, int)> {
    if |s| < 7 || s[|s| - 7..] != [0x20, 0x62, 0x79, 0x74, 0x65, 0x73, 0x29] then None
    else
      var t := s[..|s| - 7];
      var k := LastBracket(t);
      if k < 1 || t[k - 1] != 0x20 || !AreDigits(t[k + 1..]) then None else Some((t[..k - 1], Value(t[k + 1..])))
  }

  /** Name and size are read back whatever text the name holds. */
  lemma AttachmentLineReadsBack(a: Attachment)
    ensures ReadAttachmentLine(AttachmentLine(a)) == Some((a.name, a.size))
  {
    DecimalReadsBack(a.size);
    BracketBeforeDigits(a.name, Decimal(a.size));
    hide Decimal, LastBracket, Value;
    var s, t := AttachmentLine(a), a.name + OPEN + Decimal(a.size);
    assert s == t + CLOSE && s[..|s| - 7] == t && s[|s| - 7..] == CLOSE;
    assert t[..|a.name|] == a.name && t[|a.name| + 2..] == Decimal(a.size);
  }

  /** The value of the first line with this tag. */
  function Lookup(s: seq<Pair>, tag: string): Option<Bytes> {
    if s == [] then None else if s[0].item == tag then Some(s[0].value) else Lookup(s[1..], tag)
  }

  /** The bytes whose hexadecimal digits stand under this tag. */
  function LookupHex(s: seq<Pair>, tag: string): Option<Bytes> {
    match Lookup(s, tag)
    case None => None
    case Some(h) => ReadHex(h)
  }

  /** The attachment on the screen: nothing when its lines are there but cannot be read. */
  function ReadFile(s: seq<Pair>): Option<Option<Attachment>> {
    match Lookup(s, "Attachment")
    case None => Some(None)
    case Some(line) =>
      match (ReadAttachmentLine(line), LookupHex(s, "Attachment SHA-256"))
      case (Some((name, size)), Some(hash)) =>
        if 0 <= size < 0x1_0000_0000 then Some(Some(Attachment(name, size, hash))) else None
      case _ => None
  }

  /** The email that a human reads from the lines of a review, each found by its tag. */
  function ReadScreen(s: seq<Pair>): Option<Email> {
    var from, to, subject, body := Lookup(s, "From"), Lookup(s, "To"), Lookup(s, "Subject"), Lookup(s, "Message");
    var challenge, file := LookupHex(s, "Request ID"), ReadFile(s);
    if from.None? || to.None? || subject.None? || body.None? || challenge.None? || file.None? then None
    else Some(Email(challenge.value, from.value, to.value, subject.value, body.value, file.value))
  }

  /** The first line with its tag is the one that is found. */
  lemma {:induction false} LookupAt(s: seq<Pair>, i: nat)
    requires i < |s| && forall j :: 0 <= j < i ==> s[j].item != s[i].item
    ensures Lookup(s, s[i].item) == Some(s[i].value)
  {
    if i > 0 {
      LookupAt(s[1..], i - 1);
    }
  }

  lemma {:induction false} LookupAbsent(s: seq<Pair>, tag: string)
    requires forall j :: 0 <= j < |s| ==> s[j].item != tag
    ensures Lookup(s, tag).None?
  {
    if s != [] {
      LookupAbsent(s[1..], tag);
    }
  }

  /** The tags of a review, from top to bottom. */
  function TagList(withFile: bool): seq<string> {
    ["From", "To", "Subject", "Message"]
    + (if withFile then ["Attachment", "Attachment SHA-256"] else [])
    + ["Request ID"]
  }

  lemma TagListDiffers(withFile: bool, i: nat, j: nat)
    requires i < j < |TagList(withFile)|
    ensures TagList(withFile)[i] != TagList(withFile)[j]
  {
    assert "Subject"[0] != "Message"[0] && "Attachment"[0] != "Request ID"[0];
  }

  /** Every line of the screen, found by its tag; the tags are in the order of the list. */
  lemma ScreenLines(e: Email)
    ensures var s := ScreenOf(e);
            && Lookup(s, "From") == Some(e.from) && Lookup(s, "To") == Some(e.to)
            && Lookup(s, "Subject") == Some(e.subject) && Lookup(s, "Message") == Some(e.body)
            && Lookup(s, "Request ID") == Some(Hex(e.challenge))
            && (e.attachment.None? ==> Lookup(s, "Attachment").None?)
            && (e.attachment.Some? ==>
                  && Lookup(s, "Attachment") == Some(AttachmentLine(e.attachment.value))
                  && Lookup(s, "Attachment SHA-256") == Some(Hex(e.attachment.value.hash)))
            && |s| == |TagList(e.attachment.Some?)|
            && forall i :: 0 <= i < |s| ==> s[i].item == TagList(e.attachment.Some?)[i]
  {
    hide Hex, AttachmentLine, Lookup;
    var s, tags := ScreenOf(e), TagList(e.attachment.Some?);
    assert forall i :: 0 <= i < |s| ==> s[i].item == tags[i];
    forall i | 0 <= i < |s|
      ensures Lookup(s, s[i].item) == Some(s[i].value)
    {
      forall j | 0 <= j < i
        ensures s[j].item != s[i].item
      {
        TagListDiffers(e.attachment.Some?, j, i);
      }
      LookupAt(s, i);
    }
    assert s[0].item == "From" && s[1].item == "To" && s[2].item == "Subject" && s[3].item == "Message";
    assert s[|s| - 1].item == "Request ID";
    if e.attachment.Some? {
      assert s[4].item == "Attachment" && s[5].item == "Attachment SHA-256";
    } else {
      assert "Attachment"[0] != "Request ID"[0];
      LookupAbsent(s, "Attachment");
    }
  }

  /** Reading the screen of an email gives that email back. */
  lemma ScreenReadsBack(e: Email)
    ensures ReadScreen(ScreenOf(e)) == Some(e)
  {
    hide ScreenOf, Lookup, ReadHex, ReadAttachmentLine, TagList;
    ScreenLines(e);
    HexReadsBack(e.challenge);
    if e.attachment.Some? {
      AttachmentLineReadsBack(e.attachment.value);
      HexReadsBack(e.attachment.value.hash);
    }
  }

  /** The screen determines the email, hence the payload and everything signed. */
  lemma ScreenInjective(e: Email, f: Email)
    requires ScreenOf(e) == ScreenOf(f)
    ensures e == f
  {
    hide ScreenOf, ReadScreen;
    ScreenReadsBack(e);
    ScreenReadsBack(f);
  }

  /** Two accepted payloads with the same screen are the same bytes. */
  lemma ScreenDeterminesPayload(a: Bytes, b: Bytes)
    requires Accepted(a) && Accepted(b)
    requires ScreenOf(Decode(a)) == ScreenOf(Decode(b))
    ensures a == b
  {
    hide Scan, Verdict, Encode, Valid, ScreenOf;
    ScreenInjective(Decode(a), Decode(b));
  }
}
