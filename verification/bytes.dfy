/** Byte strings and the big-endian integers read from them. */
module Bytes {
  import opened Strs

  newtype byte = b: int | 0 <= b < 256

  /** The big-endian 16-bit value at `data[i..i + 2]`. */
  function Be16(data: seq<byte>, i: nat): (v: nat)
    requires i + 2 <= |data|
    ensures v < 0x10000
  {
    data[i] as nat * 0x100 + data[i + 1] as nat
  }

  /** The big-endian 32-bit value at `data[i..i + 4]`. */
  function Be32(data: seq<byte>, i: nat): (v: nat)
    requires i + 4 <= |data|
    ensures v < 0x1_0000_0000
  {
    Be16(data, i) * 0x10000 + Be16(data, i + 2)
  }

  /** The four big-endian bytes of a 32-bit value. */
  function EncodeBe32(v: nat): (bs: seq<byte>)
    requires v < 0x1_0000_0000
    ensures |bs| == 4
  {
    [(v / 0x100_0000) as byte, (v / 0x1_0000 % 0x100) as byte,
     (v / 0x100 % 0x100) as byte, (v % 0x100) as byte]
  }

  /** Writing a value big-endian and reading it back gives the value. */
  lemma Be32RoundTrip(v: nat, pre: seq<byte>, post: seq<byte>)
    requires v < 0x1_0000_0000
    ensures Be32(pre + EncodeBe32(v) + post, |pre|) == v
  {
    var s := pre + EncodeBe32(v) + post;
    var i := |pre|;
    var hi, lo := v / 0x1_0000, v % 0x1_0000;
    HalvesSplit(v);
    assert Be16(s, i) == hi;
    assert Be16(s, i + 2) == lo;
  }

  /** The bytes of each 16-bit half are the matching bytes of the whole. */
  lemma HalvesSplit(v: nat)
    ensures v / 0x1_0000 / 0x100 == v / 0x100_0000
    ensures v % 0x1_0000 / 0x100 == v / 0x100 % 0x100
    ensures v % 0x1_0000 % 0x100 == v % 0x100
  {
    var q := v / 0x100_0000;
    var r := v % 0x100_0000;
    var a, b, c := r / 0x1_0000, r / 0x100 % 0x100, r % 0x100;
    assert r == a * 0x1_0000 + b * 0x100 + c;
    assert v == q * 0x100_0000 + a * 0x1_0000 + b * 0x100 + c;
    assert v / 0x1_0000 == q * 0x100 + a;
    assert v % 0x1_0000 == b * 0x100 + c;
    assert v / 0x100 == q * 0x1_0000 + a * 0x100 + b;
  }

  /** The UTF-8 bytes of one character (`str::as_bytes`). */
  function Utf8Char(c: char): (bs: seq<byte>)
    ensures |bs| == Utf8Len(c)
    ensures c as int < 0x80 ==> bs == [c as int as byte]
  {
    var n := c as int;
    if n < 0x80 then [n as byte]
    else if n < 0x800 then [(0xC0 + n / 0x40) as byte, (0x80 + n % 0x40) as byte]
    else if n < 0x10000 then
      [(0xE0 + n / 0x1000) as byte, (0x80 + n / 0x40 % 0x40) as byte, (0x80 + n % 0x40) as byte]
    else
      [(0xF0 + n / 0x40000) as byte, (0x80 + n / 0x1000 % 0x40) as byte,
       (0x80 + n / 0x40 % 0x40) as byte, (0x80 + n % 0x40) as byte]
  }

  /** The UTF-8 bytes of a string. */
  function Utf8(s: string): (bs: seq<byte>)
    ensures |bs| == ByteLen(s)
  {
    if |s| == 0 then [] else Utf8Char(s[0]) + Utf8(s[1..])
  }

  /** Encoding distributes over concatenation. */
  lemma {:induction false} Utf8Append(a: string, b: string)
    ensures Utf8(a + b) == Utf8(a) + Utf8(b)
  {
    if |a| == 0 {
      assert a + b == b;
    } else {
      assert (a + b)[0] == a[0];
      assert (a + b)[1..] == a[1..] + b;
      Utf8Append(a[1..], b);
    }
  }
}
