/**
 Bytes, C strings and the big-endian integers of the wire format.
 */
module ByteString {

  type byte = x: int | 0 <= x < 0x100
  type u16 = x: int | 0 <= x < 0x1_0000
  type u32 = x: int | 0 <= x < 0x1_0000_0000
  type Bytes = seq<byte>

  datatype Option<+T> = None | Some(value: T)

  /** Big-endian: the first byte counts 256. */
  function U16be(n: u16): (b: Bytes)
    ensures |b| == 2 && 0x100 * (b[0] as int) + b[1] == n
  {
    [n / 0x100, n % 0x100]
  }

  function ReadU16be(b: Bytes): (n: u16)
    requires |b| >= 2
    ensures U16be(n) == b[..2]
  {
    (b[0] as int) * 0x100 + b[1]
  }

  /** Big-endian: the first byte counts most. */
  function U32be(n: u32): (b: Bytes)
    ensures |b| == 4
    ensures 0x100_0000 * (b[0] as int) + 0x1_0000 * (b[1] as int) + 0x100 * (b[2] as int) + b[3] == n
  {
    U16be(n / 0x1_0000) + U16be(n % 0x1_0000)
  }

  function ReadU32be(b: Bytes): (n: u32)
    requires |b| >= 4
    ensures U32be(n) == b[..4]
  {
    var high, low := ReadU16be(b), ReadU16be(b[2..]);
    var n := (high as int) * 0x1_0000 + low;
    assert n / 0x1_0000 == high && n % 0x1_0000 == low;
    assert b[..4] == b[..2] + b[2..][..2];
    n
  }

  function Zeros(n: nat): (b: Bytes)
    ensures |b| == n && forall i :: 0 <= i < n ==> b[i] == 0
  {
    seq(n, _ => 0)
  }

  /** Reading back a written integer, whatever follows it. */
  lemma ReadWritten(m: u16, n: u32, t: Bytes)
    ensures ReadU16be(U16be(m) + t) == m
    ensures ReadU32be(U32be(n) + t) == n
  {
    assert (U16be(m) + t)[..2] == U16be(m);
    assert (U32be(n) + t)[..4] == U32be(n);
  }

  /** The bytes before the first NUL: what a C-string reader sees. */
  function CString(b: Bytes): (s: Bytes)
    ensures s <= b
    ensures 0 !in s
    ensures |s| < |b| ==> b[|s|] == 0
  {
    if b == [] || b[0] == 0 then [] else [b[0]] + CString(b[1..])
  }

  /** A NUL-free text followed by a NUL is read back whole. */
  lemma {:induction false} CStringOf(text: Bytes, b: Bytes)
    requires |text| < |b| && text == b[..|text|]
    requires 0 !in text && b[|text|] == 0
    ensures CString(b) == text
  {
    if text != [] {
      CStringOf(text[1..], b[1..]);
    }
  }
}
