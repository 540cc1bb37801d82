/** Bytes, C strings and the big-endian integers of the wire format. */
module CBytes {

  type Byte = b: int | 0 <= b < 256
  type Bytes = seq<Byte>

  datatype Option<+T> = None | Some(value: T)

  const NUL: Byte := 0
  const NEWLINE: Byte := 10
  const SPACE: Byte := 32
  const HASH_SIGN: Byte := 35
  const DOLLAR: Byte := 36
  const MINUS: Byte := 45
  const DOT: Byte := 46
  const SLASH: Byte := 47
  const COLON: Byte := 58
  const EQUALS: Byte := 61

  const UINT32_SIZE: nat := 0x1_0000_0000

  function Min(a: nat, b: nat): nat {
    if a <= b then a else b
  }

  /** What is left of a string copied into a buffer with room for n characters. */
  function Cut(s: Bytes, n: nat): (r: Bytes)
    ensures |r| == Min(|s|, n)
    ensures r <= s
  {
    if |s| <= n then s else s[..n]
  }

  function Ascii(s: string): (r: Bytes)
    ensures |r| == |s|
  {
    seq(|s|, i requires 0 <= i < |s| => (s[i] as int) % 256)
  }

  /** The position of the first c in s, or |s|. */
  function IndexOf(s: Bytes, c: Byte): (k: nat)
    ensures k <= |s| && c !in s[..k]
    ensures k < |s| ==> s[k] == c
  {
    if s == [] || s[0] == c then
      0
    else
      var k := IndexOf(s[1..], c);
      assert s[..k + 1] == [s[0]] + s[1..][..k];
      k + 1
  }

  lemma IndexOfUnique(s: Bytes, c: Byte, k: nat)
    requires k <= |s| && c !in s[..k]
    requires k < |s| ==> s[k] == c
    ensures IndexOf(s, c) == k
  {
  }

  /** The C string that starts at the first byte of a buffer. */
  function CStr(s: Bytes): (r: Bytes)
    ensures NUL !in r && r <= s
  {
    s[..IndexOf(s, NUL)]
  }

  lemma CStrOf(s: Bytes, tail: Bytes)
    requires NUL !in s
    requires tail == [] || tail[0] == NUL
    ensures CStr(s + tail) == s
  {
    assert (s + tail)[..|s|] == s;
    IndexOfUnique(s + tail, NUL, |s|);
  }

  // Network byte order

  function U16(n: nat): (r: Bytes)
    requires n < 0x1_0000
    ensures |r| == 2
  {
    [n / 256, n % 256]
  }

  function GetU16(s: Bytes): (n: nat)
    requires |s| == 2
    ensures n < 0x1_0000
  {
    var high: int, low: int := s[0], s[1];
    high * 256 + low
  }

  function U32(n: nat): (r: Bytes)
    requires n < UINT32_SIZE
    ensures |r| == 4
  {
    U16(n / 0x1_0000) + U16(n % 0x1_0000)
  }

  function GetU32(s: Bytes): (n: nat)
    requires |s| == 4
    ensures n < UINT32_SIZE
  {
    GetU16(s[..2]) * 0x1_0000 + GetU16(s[2..])
  }

  /** The number whose digits to the base 256 are the bytes, the high one first. */
  function BigEndian(s: Bytes): nat {
    if s == [] then 0
    else
      var low: int := s[|s| - 1];
      256 * BigEndian(s[..|s| - 1]) + low
  }

  lemma TwoBytes(s: Bytes)
    requires |s| == 2
    ensures GetU16(s) == BigEndian(s)
  {
    var front := s[..1];
    assert front[..0] == [];
    assert BigEndian(front) == s[0] && s[..|s| - 1] == front;
  }

  lemma {:induction false} BigEndianAppend(a: Bytes, b: Bytes)
    ensures |b| == 2 ==> BigEndian(a + b) == 0x1_0000 * BigEndian(a) + BigEndian(b)
  {
    if |b| == 2 {
      TwoBytes(b);
      var s := a + b;
      assert s[..|s| - 1] == a + [b[0]] && (a + [b[0]])[..|a|] == a;
    }
  }

  /** The integers of the wire are written with the high byte first. */
  lemma NetworkOrder(n: nat)
    ensures n < 0x1_0000 ==> BigEndian(U16(n)) == n
    ensures n < UINT32_SIZE ==> BigEndian(U32(n)) == n
  {
    if n < 0x1_0000 {
      TwoBytes(U16(n));
    }
    if n < UINT32_SIZE {
      var hi, lo := U16(n / 0x1_0000), U16(n % 0x1_0000);
      TwoBytes(hi);
      TwoBytes(lo);
      BigEndianAppend(hi, lo);
    }
  }

  lemma U32RoundTrip(n: nat)
    requires n < UINT32_SIZE
    ensures GetU32(U32(n)) == n
  {
    var hi, lo := U16(n / 0x1_0000), U16(n % 0x1_0000);
    assert (hi + lo)[..2] == hi && (hi + lo)[2..] == lo;
  }
}
