/**
 * The configuration block as it lies in flash (sidetnfs_config.h): eight drive records of 192
 * bytes, a header, and a checksum over everything before it.
 */
module Layout {
  import opened Words
  import opened Octets
  import Crc

  const MAX_DRIVES: nat := 8
  const RECORD_SIZE: nat := 192
  const HEAD_SIZE: nat := 12
  const BODY_SIZE: nat := 1548
  const BLOCK_SIZE: nat := 1552

  type Pair = s: seq<byte> | |s| == 2 witness [0, 0]
  type Quad = s: seq<byte> | |s| == 4 witness [0, 0, 0, 0]
  type Chars24 = s: seq<byte> | |s| == 24 witness seq(24, _ => 0)
  type Chars32 = s: seq<byte> | |s| == 32 witness seq(32, _ => 0)
  type Chars64 = s: seq<byte> | |s| == 64 witness seq(64, _ => 0)

  datatype Drive = Drive(state: byte, letter: byte, kind: byte, transport: byte, port: word, reserved0: Pair,
                         nickname: Chars24, host: Chars64, mountPath: Chars32, sdPath: Chars64)

  function Zeros(n: nat): (s: seq<byte>)
    ensures |s| == n && forall k :: 0 <= k < n ==> s[k] == 0
  {
    seq(n, _ => 0)
  }

  const ZERO_DRIVE: Drive := Drive(0, 0, 0, 0, 0, [0, 0], Zeros(24), Zeros(64), Zeros(32), Zeros(64))

  type Drives = s: seq<Drive> | |s| == MAX_DRIVES witness seq(MAX_DRIVES, _ => ZERO_DRIVE)

  /** The checksum is kept as its four bytes. */
  datatype Block = Block(magic: dword, version: dword, letter: byte, count: byte, reserved: Pair, drives: Drives, crc: Quad)

  function Le16(x: word): (b: seq<byte>)
    ensures |b| == 2
  {
    [x % 256, x / 256]
  }

  function FromLe16(b: seq<byte>): word
    requires |b| == 2
  {
    var (lo: int, hi: int) := (b[0], b[1]);
    lo + 256 * hi
  }

  lemma Le16RoundTrip(x: word)
    ensures FromLe16(Le16(x)) == x
  {
  }

  lemma FromLe16RoundTrip(b: seq<byte>)
    requires |b| == 2
    ensures Le16(FromLe16(b)) == b
  {
  }

  lemma FromLe32RoundTrip(b: seq<byte>)
    requires |b| == 4
    ensures Le32(FromLe32(b)) == b
  {
    Le32OfBytes(b[0], b[1], b[2], b[3]);
    hide Le32;
    assert b == [b[0], b[1], b[2], b[3]];
  }

  // -- One record -----------------------------------------------------------------------------------

  function Chars(d: Drive): (b: seq<byte>)
    ensures |b| == 184
  {
    d.nickname + (d.host + (d.mountPath + d.sdPath))
  }

  function DriveBytes(d: Drive): (b: seq<byte>)
    ensures |b| == RECORD_SIZE
  {
    [d.state, d.letter, d.kind, d.transport] + (Le16(d.port) + (d.reserved0 + Chars(d)))
  }

  function ParseDrive(b: seq<byte>): Drive
    requires |b| == RECORD_SIZE
  {
    Drive(b[0], b[1], b[2], b[3], FromLe16(b[4..6]), b[6..8], b[8..32], b[32..96], b[96..128], b[128..192])
  }

  lemma ParseDriveBytes(d: Drive)
    ensures ParseDrive(DriveBytes(d)) == d
  {
    var b := DriveBytes(d);
    Le16RoundTrip(d.port);
    hide Le16, FromLe16;
    CharsParts(d);
    assert b[4..] == Le16(d.port) + (d.reserved0 + Chars(d));
    assert b[4..6] == b[4..][..2] == Le16(d.port);
    assert b[6..] == b[4..][2..] == d.reserved0 + Chars(d);
    assert b[6..8] == b[6..][..2] == d.reserved0;
    assert b[8..] == b[6..][2..] == Chars(d);
    hide Chars;
    assert b[8..32] == b[8..][..24] && b[32..96] == b[8..][24..88];
    assert b[96..128] == b[8..][88..120] && b[128..192] == b[8..][120..];
  }

  lemma CharsParts(d: Drive)
    ensures Chars(d)[..24] == d.nickname && Chars(d)[24..88] == d.host
    ensures Chars(d)[88..120] == d.mountPath && Chars(d)[120..] == d.sdPath
  {
    var t := d.mountPath + d.sdPath;
    var u := d.host + t;
    HeadAndTail(d.nickname, u);
    HeadAndTail(d.host, t);
    HeadAndTail(d.mountPath, d.sdPath);
    var c := Chars(d);
    assert c[24..88] == c[24..][..64] && c[88..] == c[24..][64..];
    assert c[88..120] == c[88..][..32] && c[120..] == c[88..][32..];
  }

  lemma HeadAndTail(a: seq<byte>, b: seq<byte>)
    ensures (a + b)[..|a|] == a && (a + b)[|a|..] == b
  {
  }

  lemma DriveBytesParse(b: seq<byte>)
    requires |b| == RECORD_SIZE
    ensures DriveBytes(ParseDrive(b)) == b
  {
    FromLe16RoundTrip(b[4..6]);
    hide Le16, FromLe16;
    var d := ParseDrive(b);
    assert Chars(d) == b[8..];
    assert d.reserved0 + Chars(d) == b[6..];
    assert Le16(d.port) + (d.reserved0 + Chars(d)) == b[4..];
  }

  // -- All records ----------------------------------------------------------------------------------

  function DrivesBytes(ds: seq<Drive>): (b: seq<byte>)
    ensures |b| == RECORD_SIZE * |ds|
  {
    if ds == [] then [] else DriveBytes(ds[0]) + DrivesBytes(ds[1..])
  }

  function ParseDrives(b: seq<byte>, n: nat): (ds: seq<Drive>)
    requires |b| == RECORD_SIZE * n
    ensures |ds| == n
    decreases n
  {
    if n == 0 then [] else [ParseDrive(b[..RECORD_SIZE])] + ParseDrives(b[RECORD_SIZE..], n - 1)
  }

  lemma {:induction false} ParseDrivesBytes(ds: seq<Drive>)
    ensures ParseDrives(DrivesBytes(ds), |ds|) == ds
  {
    if ds != [] {
      ParseDriveBytes(ds[0]);
      ParseDrivesBytes(ds[1..]);
      hide DriveBytes, ParseDrive;
      var b := DrivesBytes(ds);
      assert b[..RECORD_SIZE] == DriveBytes(ds[0]) && b[RECORD_SIZE..] == DrivesBytes(ds[1..]);
    }
  }

  lemma {:induction false} DrivesBytesParse(b: seq<byte>, n: nat)
    requires |b| == RECORD_SIZE * n
    ensures DrivesBytes(ParseDrives(b, n)) == b
    decreases n
  {
    if n > 0 {
      DriveBytesParse(b[..RECORD_SIZE]);
      DrivesBytesParse(b[RECORD_SIZE..], n - 1);
      hide DriveBytes, ParseDrive;
      assert ParseDrives(b, n)[1..] == ParseDrives(b[RECORD_SIZE..], n - 1);
    }
  }

  // -- The block ------------------------------------------------------------------------------------

  function Head(c: Block): (b: seq<byte>)
    ensures |b| == HEAD_SIZE
  {
    Le32(c.magic) + (Le32(c.version) + ([c.letter, c.count] + c.reserved))
  }

  /** Everything the checksum covers. */
  function Body(c: Block): (b: seq<byte>)
    ensures |b| == BODY_SIZE
  {
    Head(c) + DrivesBytes(c.drives)
  }

  function Serialize(c: Block): (b: seq<byte>)
    ensures |b| == BLOCK_SIZE
  {
    Body(c) + c.crc
  }

  function Parse(b: seq<byte>): Block
    requires |b| == BLOCK_SIZE
  {
    Block(FromLe32(b[0..4]), FromLe32(b[4..8]), b[8], b[9], b[10..12],
          ParseDrives(b[HEAD_SIZE..BODY_SIZE], MAX_DRIVES), b[BODY_SIZE..])
  }

  lemma HeadParts(c: Block)
    ensures Head(c)[0..4] == Le32(c.magic) && Head(c)[4..8] == Le32(c.version)
    ensures Head(c)[8] == c.letter && Head(c)[9] == c.count && Head(c)[10..12] == c.reserved
  {
    hide Le32;
  }

  lemma ParseSerialize(c: Block)
    ensures Parse(Serialize(c)) == c
  {
    var b, head := Serialize(c), Head(c);
    ParseDrivesBytes(c.drives);
    Le32RoundTrip(c.magic);
    Le32RoundTrip(c.version);
    HeadParts(c);
    hide Le32, FromLe32, Head, DrivesBytes, ParseDrives;
    assert b[..HEAD_SIZE] == head;
    assert b[0..4] == head[0..4] && b[4..8] == head[4..8] && b[10..12] == head[10..12];
    assert b[8] == head[8] && b[9] == head[9];
    assert b[HEAD_SIZE..BODY_SIZE] == DrivesBytes(c.drives);
  }

  /** Where the fields of the block lie; numbers have their low byte first. */
  lemma BlockByByte(c: Block)
    ensures var b := Serialize(c);
            && b[0] == c.magic % 256 && b[1] == c.magic / 256 % 256 && b[2] == c.magic / 65536 % 256 && b[3] == c.magic / 16777216
            && b[4] == c.version % 256 && b[5] == c.version / 256 % 256 && b[6] == c.version / 65536 % 256
            && b[7] == c.version / 16777216 && b[8] == c.letter && b[9] == c.count && b[10..12] == c.reserved
            && b[1548..1552] == c.crc
  {
    var b, head := Serialize(c), Head(c);
    HeadParts(c);
    hide Head, DrivesBytes;
    assert forall k :: 0 <= k < 12 ==> b[k] == head[k];
    assert b[10..12] == head[10..12];
    forall k | 0 <= k < 4 ensures head[k] == Le32(c.magic)[k] && head[4 + k] == Le32(c.version)[k] {
      assert head[k] == head[0..4][k] && head[4 + k] == head[4..8][k];
    }
  }

  /** Record `k` takes 192 bytes from 12 + 192 * k on. */
  lemma RecordByByte(c: Block, k: nat)
    requires k < 8
    ensures var b, d, at := Serialize(c), c.drives[k], 12 + 192 * k;
            && b[at] == d.state && b[at + 1] == d.letter && b[at + 2] == d.kind && b[at + 3] == d.transport
            && b[at + 4] == d.port % 256 && b[at + 5] == d.port / 256 && b[at + 6..at + 8] == d.reserved0
            && b[at + 8..at + 32] == d.nickname && b[at + 32..at + 96] == d.host
            && b[at + 96..at + 128] == d.mountPath && b[at + 128..at + 192] == d.sdPath
  {
    var b, d, at := Serialize(c), c.drives[k], 12 + 192 * k;
    RecordIsThere(c.drives, k);
    RecordBytes(d);
    var r := DriveBytes(d);
    hide DriveBytes, DrivesBytes, Head;
    assert b[at..at + 192] == b[12..1548][192 * k..192 * k + 192] == r;
    assert forall i :: 0 <= i < 6 ==> b[at + i] == b[at..at + 192][i] == r[i];
    SliceOfSlice(b, at, 6, 8);
    SliceOfSlice(b, at, 8, 32);
    SliceOfSlice(b, at, 32, 96);
    SliceOfSlice(b, at, 96, 128);
    SliceOfSlice(b, at, 128, 192);
  }

  lemma SliceOfSlice(b: seq<byte>, at: nat, i: nat, j: nat)
    requires i <= j <= 192 && at + 192 <= |b|
    ensures b[at..at + 192][i..j] == b[at + i..at + j]
  {
    var r := b[at..at + 192];
    assert forall m :: 0 <= m < 192 ==> r[m] == b[at + m];
    assert |r[i..j]| == |b[at + i..at + j]|;
    assert forall m :: 0 <= m < j - i ==> r[i..j][m] == r[i + m] == b[at + i..at + j][m];
  }

  lemma RecordBytes(d: Drive)
    ensures var r := DriveBytes(d);
            && r[0] == d.state && r[1] == d.letter && r[2] == d.kind && r[3] == d.transport
            && r[4] == d.port % 256 && r[5] == d.port / 256 && r[6..8] == d.reserved0
            && r[8..32] == d.nickname && r[32..96] == d.host && r[96..128] == d.mountPath && r[128..192] == d.sdPath
  {
    var r := DriveBytes(d);
    CharsParts(d);
    assert r[4] == Le16(d.port)[0] && r[5] == Le16(d.port)[1];
    assert r[8..] == Chars(d);
    hide Chars;
    SliceOfTail(r, 0, 24);
    SliceOfTail(r, 24, 88);
    SliceOfTail(r, 88, 120);
    SliceOfTail(r, 120, 184);
  }

  lemma SliceOfTail(r: seq<byte>, i: nat, j: nat)
    requires |r| == 192 && i <= j <= 184
    ensures r[8..][i..j] == r[8 + i..8 + j]
  {
    assert forall m :: 0 <= m < j - i ==> r[8..][i..j][m] == r[8 + i..8 + j][m];
  }

  lemma {:induction false} RecordIsThere(ds: seq<Drive>, k: nat)
    requires k < |ds|
    ensures DrivesBytes(ds)[192 * k..192 * k + 192] == DriveBytes(ds[k])
  {
    hide DriveBytes;
    if k > 0 {
      RecordIsThere(ds[1..], k - 1);
      assert DrivesBytes(ds)[192 * k..192 * k + 192] == DrivesBytes(ds[1..])[192 * (k - 1)..192 * (k - 1) + 192];
    }
  }

  lemma HeadBytes(h: seq<byte>)
    requires |h| == HEAD_SIZE
    ensures Le32(FromLe32(h[0..4])) + (Le32(FromLe32(h[4..8])) + ([h[8], h[9]] + h[10..12])) == h
  {
    FromLe32RoundTrip(h[0..4]);
    FromLe32RoundTrip(h[4..8]);
    hide Le32, FromLe32;
    assert [h[8], h[9]] + h[10..12] == h[8..];
    assert h[4..8] + h[8..] == h[4..];
  }

  lemma HeadParse(b: seq<byte>)
    requires |b| == BLOCK_SIZE
    ensures Head(Parse(b)) == b[..HEAD_SIZE]
  {
    var h := b[..HEAD_SIZE];
    HeadBytes(h);
    hide Le32, FromLe32, ParseDrives;
    assert b[0..4] == h[0..4];
    assert b[4..8] == h[4..8];
    assert b[10..12] == h[10..12];
    assert b[8] == h[8] && b[9] == h[9];
  }

  lemma SerializeParse(b: seq<byte>)
    requires |b| == BLOCK_SIZE
    ensures Serialize(Parse(b)) == b && Body(Parse(b)) == b[..BODY_SIZE]
  {
    var c := Parse(b);
    HeadParse(b);
    DrivesBytesParse(b[HEAD_SIZE..BODY_SIZE], MAX_DRIVES);
    hide Le32, FromLe32, DrivesBytes, ParseDrives, Head;
    assert b[..HEAD_SIZE] + b[HEAD_SIZE..BODY_SIZE] == b[..BODY_SIZE];
    assert b[..BODY_SIZE] + b[BODY_SIZE..] == b;
  }

  // -- The checksum ---------------------------------------------------------------------------------

  /** The stored checksum is right. */
  predicate CrcOk(c: Block) {
    Crc.Crc32(Bits(Body(c))) == Crc.Word(Bits(c.crc))
  }

  /** The checksum field that belongs to a block. */
  function Checksum(c: Block): Quad {
    FromBits(Crc.WordBytes(Crc.Crc32(Bits(Body(c)))))
  }

  lemma CrcOkIff(c: Block)
    ensures CrcOk(c) <==> c.crc == Checksum(c)
  {
    var sum := Crc.Crc32(Bits(Body(c)));
    hide Crc.Crc32, Crc.Word, Crc.WordBytes, Body, Bits, FromBits;
    Crc.WordOfBytes(sum);
    BitsFromBits(Crc.WordBytes(sum));
    if CrcOk(c) {
      Crc.WordIsInjective(Bits(c.crc), Crc.WordBytes(sum));
      BitsAreInjective(c.crc, Checksum(c));
    }
  }

  /** Only the checksum differs. */
  lemma SameBody(c: Block, crc: Quad)
    ensures Body(c.(crc := crc)) == Body(c)
  {
    hide Le32, DrivesBytes;
  }

  lemma SerializeIsInjective(a: Block, b: Block)
    requires Body(a) == Body(b) && a.crc == b.crc
    ensures a == b
  {
    ParseSerialize(a);
    ParseSerialize(b);
  }

  lemma CrcOkIsPasses(c: Block)
    ensures CrcOk(c) <==> Crc.Passes(Bits(Serialize(c)))
  {
    hide Crc.Crc32, Crc.Word, Body, Bits;
    BitsAppend(Body(c), c.crc);
    var s := Bits(Serialize(c));
    assert s[..|s| - 4] == Bits(Body(c)) && s[|s| - 4..] == Bits(c.crc);
  }

  /** `a` and `b` differ, but only within four consecutive bytes. */
  ghost predicate BurstApart(a: seq<byte>, b: seq<byte>) {
    exists head, x, y, tail {:trigger head + x + tail, head + y + tail} ::
      |x| == |y| <= 4 && x != y && a == head + x + tail && b == head + y + tail
  }

  /** A stored block with a right checksum and any burst of up to four wrong bytes is found out. */
  lemma BurstsBreakTheChecksum(good: seq<byte>, bad: seq<byte>)
    requires |good| == |bad| == BLOCK_SIZE && BurstApart(good, bad) && CrcOk(Parse(good))
    ensures !CrcOk(Parse(bad))
  {
    var head, x, y, tail :| |x| == |y| <= 4 && x != y && good == head + x + tail && bad == head + y + tail;
    SerializeParse(good);
    SerializeParse(bad);
    CrcOkIsPasses(Parse(good));
    CrcOkIsPasses(Parse(bad));
    hide CrcOk, Parse, Serialize, Crc.Passes, Bits;
    BitsAppend(head + x, tail);
    BitsAppend(head + y, tail);
    BitsAppend(head, x);
    BitsAppend(head, y);
    if Bits(x) == Bits(y) { BitsAreInjective(x, y); }
    Crc.StoredBurstsAreDetected(Bits(head), Bits(x), Bits(y), Bits(tail));
  }
}
