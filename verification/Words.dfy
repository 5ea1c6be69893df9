/** Machine words of the firmware, and the C-string conventions the other modules share. */
module Words {

  type byte = x: int | 0 <= x < 0x100
  type word = x: int | 0 <= x < 0x1_0000
  type dword = x: int | 0 <= x < TWO_TO_32

  const TWO_TO_32: nat := 0x1_0000_0000

  /** A 32-bit counter counts modulo its width. */
  lemma NextNumber(n: nat)
    ensures (n % TWO_TO_32 + 1) % TWO_TO_32 == (n + 1) % TWO_TO_32
  {
  }

  datatype Option<+T> = None | Some(value: T)

  const NUL: byte := 0
  const STAR: byte := '*' as int
  const QUERY: byte := '?' as int
  const DOT: byte := '.' as int
  const SLASH: byte := '/' as int
  const BACKSLASH: byte := '\\' as int

  /** A C string is modelled by its characters before the terminator, so none of them is NUL. */
  predicate CString(s: seq<byte>) {
    NUL !in s
  }

  /** What `strnlen` returns: the position of the first NUL, or the length when there is none. */
  function StrNLen(s: seq<byte>): (n: nat)
    ensures n <= |s|
    ensures CString(s[..n])
    ensures n < |s| ==> s[n] == NUL
  {
    if s == [] || s[0] == NUL then 0
    else
      var n := 1 + StrNLen(s[1..]);
      assert s[..n] == [s[0]] + s[1..][..n - 1];
      n
  }

  lemma {:induction false} StrNLenIs(s: seq<byte>, n: nat)
    requires n <= |s| && CString(s[..n]) && (n < |s| ==> s[n] == NUL)
    ensures StrNLen(s) == n
  {
    if n > 0 {
      assert s[0] == s[..n][0] && s[1..][..n - 1] == s[..n][1..];
      StrNLenIs(s[1..], n - 1);
    }
  }

  /** The C locale's `toupper` on one unsigned char. */
  function ToUpper(c: byte): byte {
    if 'a' as int <= c <= 'z' as int then c - 32 else c
  }

  function Le32(x: dword): (b: seq<byte>)
    ensures |b| == 4
  {
    [x % 256, x / 256 % 256, x / 65536 % 256, x / 16777216]
  }

  function FromLe32(b: seq<byte>): dword
    requires |b| == 4
  {
    var (b0: int, b1: int, b2: int, b3: int) := (b[0], b[1], b[2], b[3]);
    b0 + 256 * b1 + 65536 * b2 + 16777216 * b3
  }

  lemma Le32RoundTrip(x: dword)
    ensures FromLe32(Le32(x)) == x
  {
    assert x == 256 * (x / 256) + x % 256;
    assert x / 256 == 256 * (x / 65536) + x / 256 % 256;
    assert x / 65536 == 256 * (x / 16777216) + x / 65536 % 256;
  }

  lemma LowByte(b: byte, rest: nat)
    ensures ((b as int) + 256 * rest) % 256 == b && ((b as int) + 256 * rest) / 256 == rest
  {
  }

  lemma DivideTwice(x: nat)
    ensures x / 65536 == x / 256 / 256 && x / 16777216 == x / 65536 / 256
  {
  }

  lemma Le32OfBytes(a: byte, b: byte, c: byte, d: byte)
    ensures Le32((a as int) + 256 * b + 65536 * c + 16777216 * d) == [a, b, c, d]
  {
    var z: int := (c as int) + 256 * d;
    var y: int := (b as int) + 256 * z;
    var x: int := (a as int) + 256 * y;
    assert x == (a as int) + 256 * b + 65536 * c + 16777216 * d;
    LowByte(a, y);
    LowByte(b, z);
    LowByte(c, d);
    DivideTwice(x);
  }

  /** Dropping a header from a cut message leaves the cut body. */
  lemma CutBody<T>(head: seq<T>, body: seq<T>, n: nat)
    requires |head| <= n <= |head| + |body|
    ensures (head + body)[..n][|head|..] == body[..n - |head|]
  {
  }
}
