/**
 * MSA floppy images (filesys.c): the file format its header comment lays down (15-81), and the
 * decoder `MSA_to_ST` (124-382), proved to invert every encoding the format allows.
 */
module Msa {
  import opened Words

  const BYTES_PER_SECTOR: nat := 512
  const MSA_ID: word := 0x0E0F
  const LAST_TRACK: word := 86
  const MAX_SECTORS: word := 56
  const HEADER_BYTES: nat := 10
  const MARKER: byte := 0xE5

  // -- The format ---------------------------------------------------------------------------------

  datatype Header = Header(id: word, sectorsPerTrack: word, sides: word, startingTrack: word, endingTrack: word)

  /** A packed track is a stream of single bytes and of marked runs. */
  datatype Token = Literal(b: byte) | Run(data: byte, count: word)

  datatype Coding = Verbatim | Packed(tokens: seq<Token>)

  /** One side of one track, and how the file stores it. */
  datatype Block = Block(data: seq<byte>, coding: Coding)

  function Be16(x: word): (b: seq<byte>)
    ensures |b| == 2
  {
    [x / 256, x % 256]
  }

  function FromBe16(b: seq<byte>): word
    requires |b| >= 2
  {
    var (hi: int, lo: int) := (b[0], b[1]);
    256 * hi + lo
  }

  lemma Be16RoundTrip(x: word, tail: seq<byte>)
    ensures FromBe16(Be16(x) + tail) == x
  {
    assert x == 256 * (x / 256) + x % 256;
  }

  function Repeat(b: byte, n: nat): (s: seq<byte>)
    ensures |s| == n && forall k :: 0 <= k < n ==> s[k] == b
  {
    seq(n, _ => b)
  }

  predicate Legal(t: Token) {
    match t
    case Literal(b) => b != MARKER
    case Run(_, count) => count >= 1
  }

  predicate AllLegal(ts: seq<Token>) {
    forall i :: 0 <= i < |ts| ==> Legal(ts[i])
  }

  function EmitToken(t: Token): seq<byte> {
    match t
    case Literal(b) => [b]
    case Run(data, count) => [MARKER, data] + Be16(count)
  }

  function ExpandToken(t: Token): seq<byte> {
    match t
    case Literal(b) => [b]
    case Run(data, count) => Repeat(data, count)
  }

  function Emit(ts: seq<Token>): seq<byte> {
    if ts == [] then [] else EmitToken(ts[0]) + Emit(ts[1..])
  }

  function Expand(ts: seq<Token>): seq<byte> {
    if ts == [] then [] else ExpandToken(ts[0]) + Expand(ts[1..])
  }

  function Payload(b: Block): seq<byte> {
    match b.coding
    case Verbatim => b.data
    case Packed(tokens) => Emit(tokens)
  }

  /** A track is packed only if that makes it shorter: its length is what tells the two apart. */
  predicate LegalBlock(b: Block, bytesPerTrack: nat) {
    && |b.data| == bytesPerTrack
    && match b.coding
       case Verbatim => true
       case Packed(tokens) => AllLegal(tokens) && Expand(tokens) == b.data && |Emit(tokens)| < bytesPerTrack
  }

  predicate LegalBlocks(bs: seq<Block>, bytesPerTrack: nat) {
    bytesPerTrack < 0x1_0000 && forall i :: 0 <= i < |bs| ==> LegalBlock(bs[i], bytesPerTrack)
  }

  function Framed(b: Block): seq<byte>
    requires |Payload(b)| < 0x1_0000
  {
    Be16(|Payload(b)|) + Payload(b)
  }

  /** The part of the file after the header. */
  function Body(bs: seq<Block>, bytesPerTrack: nat): seq<byte>
    requires LegalBlocks(bs, bytesPerTrack)
  {
    if bs == [] then []
    else
      assert LegalBlock(bs[0], bytesPerTrack);
      Framed(bs[0]) + Body(bs[1..], bytesPerTrack)
  }

  /** The disk image: all tracks, one after the other. */
  function Image(bs: seq<Block>): seq<byte> {
    if bs == [] then [] else bs[0].data + Image(bs[1..])
  }

  predicate Accepted(h: Header) {
    h.id == MSA_ID && h.endingTrack <= LAST_TRACK && h.startingTrack <= h.endingTrack &&
    h.sectorsPerTrack <= MAX_SECTORS && h.sides <= 1
  }

  function ReadHeader(b: seq<byte>): Header
    requires |b| >= HEADER_BYTES
  {
    Header(FromBe16(b), FromBe16(b[2..]), FromBe16(b[4..]), FromBe16(b[6..]), FromBe16(b[8..]))
  }

  function WriteHeader(h: Header): (b: seq<byte>)
    ensures |b| == HEADER_BYTES
  {
    Be16(h.id) + Be16(h.sectorsPerTrack) + Be16(h.sides) + Be16(h.startingTrack) + Be16(h.endingTrack)
  }

  function BytesPerTrack(h: Header): nat {
    BYTES_PER_SECTOR * h.sectorsPerTrack
  }

  /** How many blocks are still to come when `tracks` tracks are left and `side` sides of the first are done. */
  function BlocksLeft(h: Header, tracks: int, side: nat): int {
    (if h.sides == 0 then tracks else 2 * tracks) - side
  }

  function BlockCount(h: Header): int
    requires Accepted(h)
  {
    BlocksLeft(h, h.endingTrack + 1 - h.startingTrack, 0)
  }

  /** The file an encoder may write for these blocks. */
  function MsaFile(h: Header, bs: seq<Block>): seq<byte>
    requires LegalBlocks(bs, BytesPerTrack(h))
  {
    WriteHeader(h) + Body(bs, BytesPerTrack(h))
  }

  predicate BadHeader(file: seq<byte>) {
    |file| <= HEADER_BYTES || !Accepted(ReadHeader(file))
  }

  // -- The format, byte by byte -------------------------------------------------------------------

  function Number(hi: byte, lo: byte): nat {
    256 * (hi as int) + lo
  }

  /** A header that is refused: ID, sectors per track, sides, or starting and ending track. */
  predicate Refused(file: seq<byte>) {
    || |file| <= 10 || file[0] != 0x0E || file[1] != 0x0F
    || Number(file[2], file[3]) > 56 || Number(file[4], file[5]) > 1
    || Number(file[6], file[7]) > Number(file[8], file[9]) || Number(file[8], file[9]) > 86
  }

  lemma HeaderByByte(file: seq<byte>)
    ensures BadHeader(file) <==> Refused(file)
    ensures !Refused(file) ==>
              var h := ReadHeader(file);
              && BytesPerTrack(h) == 512 * Number(file[2], file[3])
              && BlockCount(h) == (Number(file[4], file[5]) + 1) * (Number(file[8], file[9]) + 1 - Number(file[6], file[7]))
  {
    if |file| > 10 {
      FieldsByByte(file);
      var h := ReadHeader(file);
      hide ReadHeader;
      IdByByte(file[0], file[1]);
      hide Number;
      if h.sides <= 1 { assert h.sides == 0 || h.sides == 1; }
    }
  }

  lemma FieldsByByte(file: seq<byte>)
    requires |file| >= 10
    ensures var h := ReadHeader(file);
            && h.id == Number(file[0], file[1]) && h.sectorsPerTrack == Number(file[2], file[3])
            && h.sides == Number(file[4], file[5]) && h.startingTrack == Number(file[6], file[7])
            && h.endingTrack == Number(file[8], file[9])
  {
    forall k | 0 <= k <= 8 ensures FromBe16(file[k..]) == Number(file[k], file[k + 1]) {
      assert file[k..][0] == file[k] && file[k..][1] == file[k + 1];
    }
    hide FromBe16, Number;
    assert file[0..] == file;
  }

  lemma IdByByte(hi: byte, lo: byte)
    ensures Number(hi, lo) == MSA_ID <==> hi == 0x0E && lo == 0x0F
  {
  }

  /** A block starts with its length, high byte first; a run is marked by $E5 and ends with its length. */
  lemma BlocksByByte(b: Block, data: byte, count: word)
    requires |Payload(b)| < 0x1_0000
    ensures Framed(b) == [|Payload(b)| / 256, |Payload(b)| % 256] + Payload(b)
    ensures Emit([Run(data, count)]) == [0xE5, data, count / 256, count % 256]
    ensures Emit([Literal(data)]) == [data] && (Legal(Literal(data)) <==> data != 0xE5)
  {
    assert Emit([Run(data, count)]) == EmitToken(Run(data, count)) + [];
    assert Emit([Literal(data)]) == EmitToken(Literal(data)) + [];
  }

  /** The format comment's own examples: $E5AA0006 for six bytes $AA, and $E5E50001 for one byte $E5. */
  lemma CommentExamples()
    ensures Emit(Pack([0xAA, 0xAA, 0xAA, 0xAA, 0xAA, 0xAA])) == [0xE5, 0xAA, 0x00, 0x06]
    ensures Emit(Pack([0xE5])) == [0xE5, 0xE5, 0x00, 0x01]
  {
    PackOneRun(0xAA, 6);
    PackOneRun(0xE5, 1);
    assert Repeat(0xAA, 6) == [0xAA, 0xAA, 0xAA, 0xAA, 0xAA, 0xAA];
    assert Repeat(0xE5, 1) == [0xE5];
  }

  // -- The decoder --------------------------------------------------------------------------------

  datatype FResult = FR_OK | FR_DISK_ERR | FR_NO_FILE | FR_NO_PATH | FR_DENIED | FR_EXIST

  /** What the SD card holds. */
  datatype Card = Card(folderExists: bool, source: Option<seq<byte>>, destExists: bool, destWritable: bool)

  /** `f_read` into a fresh buffer: what lies past the end of the file stays undefined. */
  method Read(file: seq<byte>, pos: nat, n: nat) returns (buf: seq<byte>, pos': nat)
    requires pos <= |file|
    ensures |buf| == n && pos <= pos' <= |file|
    ensures pos' == if pos + n <= |file| then pos + n else |file|
    ensures buf[..pos' - pos] == file[pos..pos']
  {
    pos' := if pos + n <= |file| then pos + n else |file|;
    ghost var zeros := Repeat(0, n - (pos' - pos));
    assert |zeros| == n - (pos' - pos);
    var garbage: seq<byte> :| |garbage| == n - (pos' - pos);
    buf := file[pos..pos'] + garbage;
  }

  /** The buffer still to be read starts with the tokens still to come. */
  ghost predicate Ahead(buf: seq<byte>, at: nat, ts: seq<Token>) {
    at <= |buf| && Emit(ts) <= buf[at..] && AllLegal(ts)
  }

  lemma PrefixSplit(s: seq<byte>, e: seq<byte>, more: seq<byte>)
    requires e + more <= s
    ensures e <= s && more <= s[|e|..]
  {
    assert s[|e|..][..|more|] == (e + more)[|e|..];
  }

  lemma AheadSplit(buf: seq<byte>, at: nat, ts: seq<Token>)
    requires Ahead(buf, at, ts) && ts != []
    ensures var e := EmitToken(ts[0]);
            && at + |e| <= |buf| && |Emit(ts)| == |e| + |Emit(ts[1..])|
            && e <= buf[at..] && Ahead(buf, at + |e|, ts[1..]) && Legal(ts[0])
  {
    var e := EmitToken(ts[0]);
    hide EmitToken, Legal;
    assert Emit(ts) == e + Emit(ts[1..]);
    PrefixSplit(buf[at..], e, Emit(ts[1..]));
    assert buf[at..][|e|..] == buf[at + |e|..];
  }

  /** The buffer holds this token at `at`. */
  ghost predicate TokenAt(buf: seq<byte>, at: nat, t: Token) {
    && at + |EmitToken(t)| <= |buf|
    && match t
       case Literal(b) => |EmitToken(t)| == 1 && buf[at] == b != MARKER && ExpandToken(t) == [b]
       case Run(data, count) =>
         && |EmitToken(t)| == 4 && buf[at] == MARKER && buf[at + 1] == data
         && FromBe16(buf[at + 2..at + 4]) == count && ExpandToken(t) == Repeat(data, count)
  }

  lemma NextToken(buf: seq<byte>, at: nat, ts: seq<Token>)
    requires Ahead(buf, at, ts) && ts != []
    ensures var e := EmitToken(ts[0]);
            && at + |e| <= |buf| && |Emit(ts)| == |e| + |Emit(ts[1..])|
            && Ahead(buf, at + |e|, ts[1..])
    ensures TokenAt(buf, at, ts[0])
  {
    AheadSplit(buf, at, ts);
    hide Ahead, Emit;
    match ts[0]
    case Literal(b) =>
      assert buf[at] == buf[at..][0];
    case Run(data, count) =>
      RunAhead(buf, at, data, count);
  }

  lemma RunAhead(buf: seq<byte>, at: nat, data: byte, count: word)
    requires at <= |buf| && [MARKER, data] + Be16(count) <= buf[at..]
    ensures at + 4 <= |buf| && buf[at] == MARKER && buf[at + 1] == data && FromBe16(buf[at + 2..at + 4]) == count
  {
    var e := [MARKER, data] + Be16(count);
    hide Be16, FromBe16;
    assert buf[at] == buf[at..][0] == e[0];
    assert buf[at + 1] == buf[at..][1] == e[1];
    assert buf[at + 2..at + 4] == buf[at..][2..4] == e[2..4] == Be16(count) + [];
    Be16RoundTrip(count, []);
  }

  lemma ExpandNext(before: seq<byte>, ts: seq<Token>)
    requires ts != []
    ensures before + Expand(ts) == before + ExpandToken(ts[0]) + Expand(ts[1..])
    ensures |before + Expand(ts)| >= |before| + |ExpandToken(ts[0])|
  {
    assert Expand(ts) == ExpandToken(ts[0]) + Expand(ts[1..]);
  }

  lemma ExpandNothing(buf: seq<byte>, at: nat, ts: seq<Token>)
    requires Ahead(buf, at, ts) && Expand(ts) == []
    ensures ts == [] && Emit(ts) == []
  {
    LegalTokensExpand(ts);
  }

  lemma {:induction false} LegalTokensExpand(ts: seq<Token>)
    requires AllLegal(ts)
    ensures |Expand(ts)| >= |ts|
  {
    if ts != [] {
      assert Legal(ts[0]);
      LegalTokensExpand(ts[1..]);
    }
  }

  /** The inner loop: one packed track. */
  method Unpack(bufferIn: seq<byte>, bytesPerTrack: nat, bytesLeft: dword, ghost ts: seq<Token>)
    returns (bufferOut: array<byte>, at: nat, bytesLeft': dword)
    requires Ahead(bufferIn, 0, ts) && |Expand(ts)| == bytesPerTrack && |Emit(ts)| <= bytesLeft
    ensures fresh(bufferOut) && bufferOut[..] == Expand(ts)
    ensures at == |Emit(ts)| && bytesLeft' == bytesLeft - at
  {
    bufferOut := new byte[bytesPerTrack];
    at, bytesLeft' := 0, bytesLeft;
    var done := 0;
    ghost var rest := ts;
    assert bufferOut[..0] + Expand(ts) == Expand(ts);
    while done < bytesPerTrack
      invariant 0 <= done <= bytesPerTrack == bufferOut.Length && fresh(bufferOut)
      invariant Ahead(bufferIn, at, rest) && at + |Emit(rest)| == |Emit(ts)|
      invariant bufferOut[..done] + Expand(rest) == Expand(ts)
      invariant bytesLeft' == bytesLeft - at
      decreases |rest|
    {
      assert rest != [];
      NextToken(bufferIn, at, rest);
      ghost var before, more := bufferOut[..done], ExpandToken(rest[0]);
      ExpandNext(before, rest);
      hide *;
      done, at, bytesLeft' := UnpackOne(bufferIn, bufferOut, done, at, bytesLeft', rest[0]);
      assert bufferOut[..done] == before + more;
      rest := rest[1..];
    }
    assert Expand(rest) == [];
    ExpandNothing(bufferIn, at, rest);
    assert bufferOut[..] == bufferOut[..done] + Expand(rest);
  }

  /** One turn of it: a literal byte or a run, cut where the track is full. */
  method UnpackOne(bufferIn: seq<byte>, bufferOut: array<byte>, done: nat, at: nat, bytesLeft: dword, ghost t: Token)
    returns (done': nat, at': nat, bytesLeft': dword)
    requires TokenAt(bufferIn, at, t) && done + |ExpandToken(t)| <= bufferOut.Length && |EmitToken(t)| <= bytesLeft
    modifies bufferOut
    ensures done' == done + |ExpandToken(t)| && bufferOut[..done'] == old(bufferOut[..done]) + ExpandToken(t)
    ensures at' == at + |EmitToken(t)| && bytesLeft' == bytesLeft - |EmitToken(t)|
  {
    hide FromBe16, EmitToken, ExpandToken;
    var bytesPerTrack := bufferOut.Length;
    done', at', bytesLeft' := done, at, bytesLeft - 1;
    var b := bufferIn[at'];
    at' := at' + 1;
    if b != MARKER {
      bufferOut[done] := b;
      done' := done' + 1;
    } else {
      bytesLeft' := bytesLeft' - 3;
      var data := bufferIn[at'];
      at' := at' + 1;
      var run: int := FromBe16(bufferIn[at'..at' + 2]);
      if run + done > bytesPerTrack { run := bytesPerTrack - done; }
      at' := at' + 2;
      FillRun(bufferOut, done, data, run);
      done' := done' + run;
    }
  }

  method FillRun(a: array<byte>, start: nat, data: byte, run: nat)
    requires start + run <= a.Length
    modifies a
    ensures a[..start + run] == old(a[..start]) + Repeat(data, run)
  {
    for i := 0 to run
      invariant a[..start] == old(a[..start])
      invariant forall k :: start <= k < start + i ==> a[k] == data
    {
      a[start + i] := data;
    }
  }

  /**
   * The file is read up to the first byte of block `bs[0]`, whose length is already known; `pad` bytes
   * come after the last block.
   */
  ghost predicate Positioned(file: seq<byte>, pos: nat, len: word, bytesLeft: dword, bs: seq<Block>, bytesPerTrack: nat, pad: nat) {
    && LegalBlocks(bs, bytesPerTrack) && pos <= |file|
    && if bs == [] then bytesLeft == pad
       else
         && LegalBlock(bs[0], bytesPerTrack)
         && Payload(bs[0]) + Body(bs[1..], bytesPerTrack) <= file[pos..]
         && |file| - pos == |Payload(bs[0])| + |Body(bs[1..], bytesPerTrack)| + pad
         && len == |Payload(bs[0])| && bytesLeft == 2 + |file| - pos
  }

  lemma BodyNext(bs: seq<Block>, bytesPerTrack: nat)
    requires LegalBlocks(bs, bytesPerTrack) && bs != []
    ensures LegalBlock(bs[0], bytesPerTrack) && |Payload(bs[0])| <= bytesPerTrack
    ensures LegalBlocks(bs[1..], bytesPerTrack)
    ensures Body(bs, bytesPerTrack) == Be16(|Payload(bs[0])|) + (Payload(bs[0]) + Body(bs[1..], bytesPerTrack))
  {
    hide Be16, Emit, Expand, AllLegal;
    assert LegalBlock(bs[0], bytesPerTrack);
  }

  lemma PayloadRead(f: seq<byte>, payload: seq<byte>, more: seq<byte>, buf: seq<byte>, k: nat)
    requires f == payload + more && |payload| <= k <= |f| && k <= |buf| && buf[..k] == f[..k]
    ensures buf[..|payload|] == payload
  {
    assert buf[..k][..|payload|] == f[..k][..|payload|] == payload;
  }

  lemma WordRead(f: seq<byte>, payload: seq<byte>, n: word, next: seq<byte>, buf: seq<byte>)
    requires f == payload + (Be16(n) + next) && |buf| == |payload| + 2 && buf == f[..|buf|]
    ensures FromBe16(buf[|payload|..|payload| + 2]) == n
    ensures f[|payload| + 2..] == next
  {
    hide Be16, FromBe16;
    var w := Be16(n);
    assert f[|payload|..|payload| + 2] == w;
    assert buf[|payload|..|payload| + 2] == f[|payload|..|payload| + 2] == w + [];
    Be16RoundTrip(n, []);
    assert f[|payload| + 2..] == next;
  }

  /** From here on the file holds one payload, then the following blocks, then the padding. */
  lemma WhatIsAhead(file: seq<byte>, pos: nat, len: word, bytesLeft: dword, bs: seq<Block>, bytesPerTrack: nat, pad: nat)
    requires Positioned(file, pos, len, bytesLeft, bs, bytesPerTrack, pad) && bs != []
    ensures pos <= |file| && len == |Payload(bs[0])| <= bytesPerTrack && LegalBlocks(bs[1..], bytesPerTrack)
    ensures var f, rest := file[pos..], Body(bs[1..], bytesPerTrack);
            && |f| == len + |rest| + pad && bytesLeft == 2 + |f|
            && f == Payload(bs[0]) + f[len..] && rest <= f[len..]
            && if bs[1..] == [] then rest == []
               else
                 && LegalBlock(bs[1], bytesPerTrack) && |Payload(bs[1])| <= bytesPerTrack < 0x1_0000
                 && rest == Be16(|Payload(bs[1])|) + (Payload(bs[1]) + Body(bs[1..][1..], bytesPerTrack))
  {
    BodyNext(bs, bytesPerTrack);
    var f, payload, rest := file[pos..], Payload(bs[0]), Body(bs[1..], bytesPerTrack);
    if bs[1..] != [] { BodyNext(bs[1..], bytesPerTrack); }
    assert bs[1..] == [] ==> rest == [];
    hide LegalBlock, Payload, Body, Be16;
    SplitPrefix(payload, rest, f);
  }

  /** Reading one payload and the word after it. */
  lemma ReadAhead(file: seq<byte>, pos: nat, len: word, bytesLeft: dword, bs: seq<Block>, bytesPerTrack: nat, pad: nat, buf: seq<byte>, pos': nat)
    requires Positioned(file, pos, len, bytesLeft, bs, bytesPerTrack, pad) && bs != []
    requires pos' == if pos + len + 2 <= |file| then pos + len + 2 else |file|
    requires |buf| == len + 2 && pos' - pos <= |buf| && buf[..pos' - pos] == file[pos..pos']
    ensures Payload(bs[0]) == buf[..len] && len <= bytesPerTrack && 2 + len <= bytesLeft
    ensures bytesLeft - 2 - len > 0 <==> bs[1..] != [] || pad > 0
    ensures Positioned(file, pos', FromBe16(buf[len..len + 2]), bytesLeft - 2 - len, bs[1..], bytesPerTrack, pad)
  {
    WhatIsAhead(file, pos, len, bytesLeft, bs, bytesPerTrack, pad);
    var f, payload := file[pos..], Payload(bs[0]);
    hide LegalBlock, LegalBlocks, Payload, FromBe16, Body, Be16;
    var more := f[|payload|..];
    assert f[..pos' - pos] == file[pos..pos'];
    PayloadRead(f, payload, more, buf, pos' - pos);
    if bs[1..] != [] {
      var n, after := |Payload(bs[1])|, Payload(bs[1]) + Body(bs[1..][1..], bytesPerTrack);
      assert buf == buf[..|buf|];
      NextWord(f, payload, n, after, buf);
      assert file[pos'..] == f[len + 2..];
    }
  }

  lemma NextWord(f: seq<byte>, payload: seq<byte>, n: word, after: seq<byte>, buf: seq<byte>)
    requires |payload| <= |f| && f == payload + f[|payload|..] && Be16(n) + after <= f[|payload|..]
    requires |buf| == |payload| + 2 && |buf| <= |f| && buf == f[..|buf|]
    ensures FromBe16(buf[|payload|..|payload| + 2]) == n && after <= f[|payload| + 2..]
  {
    hide Be16, FromBe16;
    var more := f[|payload|..];
    SplitPrefix(Be16(n), after, more);
    WordRead(f, payload, n, more[2..], buf);
  }

  lemma SplitPrefix(a: seq<byte>, b: seq<byte>, f: seq<byte>)
    requires a + b <= f
    ensures f == a + f[|a|..] && b <= f[|a|..]
  {
    assert f[..|a|] == (a + b)[..|a|] == a;
    assert f[|a|..][..|b|] == f[..|a + b|][|a|..] == b;
  }

  /** After the last block the length word means nothing. */
  lemma LengthIsFree(file: seq<byte>, pos: nat, len: word, len': word, bytesLeft: dword, bs: seq<Block>, bytesPerTrack: nat, pad: nat)
    requires Positioned(file, pos, len, bytesLeft, bs, bytesPerTrack, pad) && bs == []
    ensures Positioned(file, pos, len', bytesLeft, bs, bytesPerTrack, pad) && bytesLeft == pad
  {
  }

  /** One pass of the inner loop over sides: reads, unpacks and writes one block. */
  method DecodeBlock(file: seq<byte>, pos: nat, len: word, bytesPerTrack: nat, bytesLeft: dword, dest: seq<byte>,
                     readOk: bool, writeOk: bool, ghost bs: seq<Block>, ghost pad: nat)
    returns (ok: bool, pos': nat, len': word, bytesLeft': dword, dest': seq<byte>)
    requires Positioned(file, pos, len, bytesLeft, bs, bytesPerTrack, pad) && bs != []
    ensures (ok <==> readOk && writeOk) && (!ok ==> dest' == dest)
    ensures ok ==> dest' == dest + bs[0].data && Positioned(file, pos', len', bytesLeft', bs[1..], bytesPerTrack, pad)
  {
    dest', len' := dest, len;
    var bufferIn;
    bufferIn, pos' := Read(file, pos, len + 2);
    BodyNext(bs, bytesPerTrack);
    ReadAhead(file, pos, len, bytesLeft, bs, bytesPerTrack, pad, bufferIn, pos');
    hide Body, Positioned, LegalBlocks, LegalBlock, Payload, FromBe16;
    PayloadForms(bs[0], bytesPerTrack, bufferIn, len);
    bytesLeft' := bytesLeft - 2;
    if !readOk { return false, pos', len', bytesLeft', dest'; }
    var at: nat;
    if len == bytesPerTrack {
      bytesLeft' := bytesLeft' - len;
      if !writeOk { return false, pos', len', bytesLeft', dest'; }
      at := len;
      dest' := dest + bufferIn[..bytesPerTrack];
    } else {
      var bufferOut;
      bufferOut, at, bytesLeft' := Unpack(bufferIn, bytesPerTrack, bytesLeft', bs[0].coding.tokens);
      if !writeOk { return false, pos', len', bytesLeft', dest'; }
      dest' := dest + bufferOut[..];
    }
    if bytesLeft' > 0 {
      len' := FromBe16(bufferIn[at..at + 2]);
    } else {
      LengthIsFree(file, pos', FromBe16(bufferIn[at..at + 2]), len', bytesLeft', bs[1..], bytesPerTrack, pad);
    }
    return true, pos', len', bytesLeft', dest';
  }

  /** The length tells a verbatim track from a packed one. */
  lemma PayloadForms(b: Block, bytesPerTrack: nat, buf: seq<byte>, len: nat)
    requires LegalBlock(b, bytesPerTrack) && len == |Payload(b)| && len <= |buf| && buf[..len] == Payload(b)
    ensures |b.data| == bytesPerTrack
    ensures len == bytesPerTrack ==> buf[..bytesPerTrack] == b.data
    ensures len != bytesPerTrack ==>
              && b.coding.Packed? && Ahead(buf, 0, b.coding.tokens)
              && Expand(b.coding.tokens) == b.data && len == |Emit(b.coding.tokens)|
  {
    assert buf[0..] == buf;
  }

  lemma GoodHeader(file: seq<byte>)
    ensures !BadHeader(file) ==> |file| >= HEADER_BYTES && ReadHeader(file).sides <= 1
  {
  }

  /** After the header the source file holds these blocks; whatever comes after them is not looked at. */
  ghost predicate Encodes(file: seq<byte>, bs: seq<Block>) {
    && !BadHeader(file) && |file| < TWO_TO_32
    && var h := ReadHeader(file);
       && LegalBlocks(bs, BytesPerTrack(h)) && |bs| == BlockCount(h)
       && Body(bs, BytesPerTrack(h)) <= file[HEADER_BYTES..]
  }

  /** How many bytes come after the last block. */
  ghost function Padding(file: seq<byte>, bs: seq<Block>): nat
    requires Encodes(file, bs)
  {
    |file| - HEADER_BYTES - |Body(bs, BytesPerTrack(ReadHeader(file)))|
  }

  /** After the header and the first length word. */
  lemma FirstPosition(file: seq<byte>, bs: seq<Block>)
    requires Encodes(file, bs)
    ensures |file| >= HEADER_BYTES + 2 && bs != []
    ensures Positioned(file, HEADER_BYTES + 2, FromBe16(file[HEADER_BYTES..HEADER_BYTES + 2]), |file| - HEADER_BYTES,
                       bs, BytesPerTrack(ReadHeader(file)), Padding(file, bs))
  {
    var bytesPerTrack, f := BytesPerTrack(ReadHeader(file)), file[HEADER_BYTES..];
    BodyNext(bs, bytesPerTrack);
    var n, after := |Payload(bs[0])|, Payload(bs[0]) + Body(bs[1..], bytesPerTrack);
    hide LegalBlock, LegalBlocks, Payload, Body, FromBe16, Be16, ReadHeader, BytesPerTrack;
    SplitPrefix(Be16(n), after, f);
    assert [] + (Be16(n) + f[2..]) == f;
    WordRead(f, [], n, f[2..], f[..2]);
    assert f[..2][0..2] == file[HEADER_BYTES..HEADER_BYTES + 2];
    assert file[HEADER_BYTES + 2..] == f[2..];
  }

  /**
   * `MSA_to_ST`.  `bs` are the blocks the source file encodes, if its header is accepted.  Accesses to
   * the card are numbered: reading the header, the check for free space (which is asked for one track
   * less than the image has), then a read and a write for each block; `failing` is the first that fails.
   */
  method MsaToSt(card: Card, overwrite: bool, failing: nat, ghost bs: seq<Block>) returns (fr: FResult, dest: Option<seq<byte>>)
    requires card.source.Some? && !Refused(card.source.value) ==> Encodes(card.source.value, bs)
    ensures !card.folderExists ==> fr == FR_NO_PATH && dest == None
    ensures card.folderExists && card.destExists && !overwrite ==> fr == FR_EXIST && dest == None
    ensures var asked := card.folderExists && !(card.destExists && !overwrite);
            && (asked && (card.source == None || !card.destWritable) ==> fr == FR_NO_FILE && dest == None)
            && (asked && card.source.Some? && card.destWritable ==>
                  if Refused(card.source.value) || failing == 0 then fr == FR_DISK_ERR && dest == Some([])
                  else if failing == 1 then fr == FR_DENIED && dest == Some([])
                  else if failing < 2 + 2 * |bs| then fr == FR_DISK_ERR && dest == Some(Image(bs[..(failing - 2) / 2]))
                  else fr == FR_OK && dest == Some(Image(bs)))
  {
    hide Encodes, BadHeader, Refused, Image, ReadHeader, BytesPerTrack, BlockCount, Positioned, FromBe16;
    if !card.folderExists { return FR_NO_PATH, None; }
    if card.destExists && !overwrite { return FR_EXIST, None; }
    if card.source == None { return FR_NO_FILE, None; }
    if !card.destWritable { return FR_NO_FILE, None; }
    var file := card.source.value;
    HeaderByByte(file);
    if failing == 0 { return FR_DISK_ERR, Some([]); }
    if BadHeader(file) { return FR_DISK_ERR, Some([]); }
    GoodHeader(file);
    var h := ReadHeader(file);
    if failing == 1 { return FR_DENIED, Some([]); }
    FirstPosition(file, bs);
    var ok, out := DecodeBlocks(file, h, failing - 2, bs);
    return if ok then FR_OK else FR_DISK_ERR, Some(out);
  }

  /** Where the decoder stands between two blocks. */
  datatype Progress = Progress(pos: nat, len: word, bytesLeft: dword, out: seq<byte>)

  /** `done` blocks have been decoded. */
  ghost predicate At(file: seq<byte>, p: Progress, bytesPerTrack: nat, bs: seq<Block>, done: nat, pad: nat) {
    done <= |bs| && p.out == Image(bs[..done]) && Positioned(file, p.pos, p.len, p.bytesLeft, bs[done..], bytesPerTrack, pad)
  }

  lemma AtStart(file: seq<byte>, p: Progress, bytesPerTrack: nat, bs: seq<Block>, pad: nat)
    requires Positioned(file, p.pos, p.len, p.bytesLeft, bs, bytesPerTrack, pad) && p.out == []
    ensures At(file, p, bytesPerTrack, bs, 0, pad)
  {
    hide Positioned;
    assert bs[0..] == bs && bs[..0] == [];
  }

  lemma AtGives(file: seq<byte>, p: Progress, bytesPerTrack: nat, bs: seq<Block>, done: nat, pad: nat)
    requires At(file, p, bytesPerTrack, bs, done, pad)
    ensures p.out == Image(bs[..done]) && (done == |bs| ==> p.out == Image(bs) && p.bytesLeft == pad)
  {
    hide Positioned, Image;
    if done == |bs| {
      assert bs[..done] == bs;
      LengthIsFree(file, p.pos, p.len, p.len, p.bytesLeft, bs[done..], bytesPerTrack, pad);
    }
  }

  /** A block is decoded if its read and its write, accesses `access` and `access + 1`, both work. */
  method NextBlock(file: seq<byte>, p: Progress, bytesPerTrack: nat, failing: nat, access: nat,
                   ghost bs: seq<Block>, ghost done: nat, ghost pad: nat)
    returns (ok: bool, p': Progress)
    requires At(file, p, bytesPerTrack, bs, done, pad) && done < |bs| && access <= failing
    ensures (ok <==> failing >= access + 2) && p'.out == if ok then p.out + bs[done].data else p.out
    ensures ok ==> At(file, p', bytesPerTrack, bs, done + 1, pad)
  {
    ImageGrows(bs, done);
    assert bs[done..][1..] == bs[done + 1..];
    hide Positioned, Image;
    var pos, len, bytesLeft, out;
    ok, pos, len, bytesLeft, out :=
      DecodeBlock(file, p.pos, p.len, bytesPerTrack, p.bytesLeft, p.out, failing != access, failing != access + 1, bs[done..], pad);
    p' := Progress(pos, len, bytesLeft, out);
  }

  /** The loop over the sides of one track; `tracks` are left, this one included. */
  method DecodeTrack(file: seq<byte>, p: Progress, h: Header, bytesPerTrack: nat, failing: nat, access: nat,
                     ghost bs: seq<Block>, ghost done: nat, ghost tracks: nat, ghost pad: nat)
    returns (ok: bool, p': Progress, access': nat, ghost done': nat)
    requires At(file, p, bytesPerTrack, bs, done, pad) && h.sides <= 1 && tracks > 0
    requires access == 2 * done <= failing && |bs| == done + BlocksLeft(h, tracks, 0)
    ensures access' == 2 * done' <= failing && done' <= |bs| && At(file, p', bytesPerTrack, bs, done', pad)
    ensures ok ==> |bs| == done' + BlocksLeft(h, tracks - 1, 0)
    ensures !ok ==> failing < access' + 2 && done' < |bs|
  {
    hide *;
    BlocksOfTrack(h, tracks);
    p', access', done' := p, access, done;
    var side := 0;
    while side < h.sides + 1
      invariant 0 <= side <= h.sides + 1
      invariant access' == 2 * done' <= failing && |bs| == done' + BlocksLeft(h, tracks, side)
      invariant At(file, p', bytesPerTrack, bs, done', pad)
    {
      var q;
      ok, q := NextBlock(file, p', bytesPerTrack, failing, access', bs, done', pad);
      if !ok { return; }
      p', done', access' := q, done' + 1, access' + 2;
      side := side + 1;
    }
    ok := true;
    AtBound(file, p', bytesPerTrack, bs, done', pad);
  }

  lemma AtBound(file: seq<byte>, p: Progress, bytesPerTrack: nat, bs: seq<Block>, done: nat, pad: nat)
    requires At(file, p, bytesPerTrack, bs, done, pad)
    ensures done <= |bs|
  {
  }

  /** The loop over tracks; `failing` counts the reads and writes from here on. */
  method DecodeBlocks(file: seq<byte>, h: Header, failing: nat, ghost bs: seq<Block>) returns (ok: bool, out: seq<byte>)
    requires Encodes(file, bs) && h == ReadHeader(file) && |file| >= HEADER_BYTES + 2
    requires Positioned(file, HEADER_BYTES + 2, FromBe16(file[HEADER_BYTES..HEADER_BYTES + 2]), |file| - HEADER_BYTES,
                        bs, BytesPerTrack(h), Padding(file, bs))
    ensures ok <==> failing >= 2 * |bs|
    ensures out == if ok then Image(bs) else Image(bs[..failing / 2])
  {
    var bytesPerTrack := BytesPerTrack(h);
    var p := Progress(HEADER_BYTES + 2, FromBe16(file[HEADER_BYTES..HEADER_BYTES + 2]), |file| - HEADER_BYTES, []);
    ghost var pad := Padding(file, bs);
    AtStart(file, p, bytesPerTrack, bs, pad);
    assert Accepted(h) && |bs| == BlocksLeft(h, h.endingTrack + 1 - h.startingTrack, 0);
    AcceptedBounds(h);
    hide *;
    ghost var done: nat := 0;
    var access: nat := 0;
    var track: nat := h.startingTrack;
    while track <= h.endingTrack
      invariant h.startingTrack <= track <= h.endingTrack + 1
      invariant access == 2 * done <= failing && |bs| == done + BlocksLeft(h, h.endingTrack + 1 - track, 0)
      invariant At(file, p, bytesPerTrack, bs, done, pad)
      decreases h.endingTrack + 1 - track
    {
      ok, p, access, done := DecodeTrack(file, p, h, bytesPerTrack, failing, access, bs, done, h.endingTrack + 1 - track, pad);
      if !ok {
        AtGives(file, p, bytesPerTrack, bs, done, pad);
        assert failing / 2 == done;
        return false, p.out;
      }
      track := track + 1;
    }
    BlocksOfTrack(h, 0);
    AtGives(file, p, bytesPerTrack, bs, done, pad);
    return true, p.out;
  }

  lemma AcceptedBounds(h: Header)
    requires Accepted(h)
    ensures h.sides <= 1 && h.startingTrack <= h.endingTrack
  {
  }

  lemma BlocksOfTrack(h: Header, tracks: int)
    requires h.sides <= 1
    ensures tracks == 0 ==> BlocksLeft(h, tracks, 0) == 0
    ensures BlocksLeft(h, tracks, h.sides + 1) == BlocksLeft(h, tracks - 1, 0)
    ensures forall side: nat :: side <= h.sides ==> BlocksLeft(h, tracks, side) == BlocksLeft(h, tracks, side + 1) + 1
    ensures forall side: nat :: side <= h.sides && tracks > 0 ==> BlocksLeft(h, tracks, side) > 0
  {
  }

  /** One more block. */
  lemma {:induction false} ImageGrows(bs: seq<Block>, k: nat)
    requires k < |bs|
    ensures Image(bs[..k + 1]) == Image(bs[..k]) + bs[k].data
  {
    if k == 0 {
      assert bs[..1][1..] == [] && bs[..0] == [];
    } else {
      ImageGrows(bs[1..], k - 1);
      assert bs[..k + 1][1..] == bs[1..][..k] && bs[..k][1..] == bs[1..][..k - 1];
    }
  }

  // -- The image, track by track ------------------------------------------------------------------

  /** Block `k` of the file is the `k`-th stretch of the image. */
  lemma {:induction false} BlockInImage(bs: seq<Block>, bytesPerTrack: nat, k: nat)
    requires LegalBlocks(bs, bytesPerTrack) && k < |bs|
    ensures |Image(bs)| == bytesPerTrack * |bs|
    ensures 0 <= bytesPerTrack * k <= bytesPerTrack * (k + 1) <= |Image(bs)|
    ensures Image(bs)[bytesPerTrack * k..bytesPerTrack * (k + 1)] == bs[k].data
  {
    assert LegalBlock(bs[0], bytesPerTrack);
    var head, tail := bs[0].data, Image(bs[1..]);
    if |bs| > 1 {
      BlockInImage(bs[1..], bytesPerTrack, if k > 0 then k - 1 else 0);
    }
    ImageOffsets(bytesPerTrack, |bs|, k);
    if k > 0 {
      assert Image(bs)[bytesPerTrack * k..bytesPerTrack * (k + 1)]
          == tail[bytesPerTrack * (k - 1)..bytesPerTrack * k];
    }
  }

  lemma ImageOffsets(n: nat, count: nat, k: nat)
    requires k < count
    ensures n * count == n + n * (count - 1)
    ensures 0 <= n * k <= n * (k + 1) <= n * count
    ensures k > 0 ==> n * k == n + n * (k - 1)
  {
    Distribute(n, 1, count - 1);
    Distribute(n, k, 1);
    Distribute(n, k + 1, count - k - 1);
    Distribute(n, 1, k - 1);
  }

  lemma Distribute(n: nat, a: int, b: int)
    ensures n * (a + b) == n * a + n * b
    ensures b >= 0 ==> n * b >= 0
    ensures a >= 0 ==> n * a >= 0
  {
  }

  // -- An encoder, as the format comment describes it ---------------------------------------------

  function RunOf(data: seq<byte>, b: byte): (n: nat)
    ensures n <= |data| && data[..n] == Repeat(b, n)
    ensures data != [] && data[0] == b ==> n >= 1
  {
    if data == [] || data[0] != b then 0
    else
      var n := 1 + RunOf(data[1..], b);
      assert data[..n] == [b] + data[1..][..n - 1];
      n
  }

  /** The first token, and what it stands for. */
  function FirstToken(data: seq<byte>): (t: Token)
    requires data != [] && |data| < 0x1_0000
    ensures Legal(t) && 1 <= |ExpandToken(t)| <= |data| && ExpandToken(t) == data[..|ExpandToken(t)|]
  {
    var n := RunOf(data, data[0]);
    if data[0] == MARKER || n >= 4 then Run(data[0], n) else Literal(data[0])
  }

  /** Runs of at least four bytes, and all runs of the marker, become run tokens. */
  function Pack(data: seq<byte>): seq<Token>
    requires |data| < 0x1_0000
    decreases |data|
  {
    if data == [] then []
    else
      var t := FirstToken(data);
      [t] + Pack(data[|ExpandToken(t)|..])
  }

  lemma {:induction false} PackExpands(data: seq<byte>)
    requires |data| < 0x1_0000
    ensures AllLegal(Pack(data)) && Expand(Pack(data)) == data
    decreases |data|
  {
    if data == [] {
      PackNothing();
    } else {
      var t := FirstToken(data);
      var rest := data[|ExpandToken(t)|..];
      PackExpands(rest);
      hide AllLegal, Expand, RunOf, Legal, ExpandToken, FirstToken;
      PackStep(t, Pack(rest), data[..|ExpandToken(t)|], rest);
    }
  }

  /** Four or more equal bytes, or any number of markers, become one run. */
  lemma PackOneRun(b: byte, n: word)
    requires n >= 4 || (n >= 1 && b == 0xE5)
    ensures Emit(Pack(Repeat(b, n))) == [0xE5, b, n / 256, n % 256]
  {
    var data := Repeat(b, n);
    RunOfAll(b, n);
    assert FirstToken(data) == Run(b, n);
    assert data[n..] == [];
    assert Pack(data) == [Run(b, n)] + [];
    BlocksByByte(Block([], Verbatim), b, n);
  }

  lemma {:induction false} RunOfAll(b: byte, n: nat)
    ensures RunOf(Repeat(b, n), b) == n
  {
    if n > 0 {
      assert Repeat(b, n)[1..] == Repeat(b, n - 1);
      RunOfAll(b, n - 1);
    }
  }

  lemma PackNothing()
    ensures AllLegal([]) && Expand([]) == []
  {
  }

  lemma PackStep(t: Token, ts: seq<Token>, head: seq<byte>, tail: seq<byte>)
    requires Legal(t) && ExpandToken(t) == head && AllLegal(ts) && Expand(ts) == tail
    ensures AllLegal([t] + ts) && Expand([t] + ts) == head + tail
  {
    assert ([t] + ts)[1..] == ts;
  }

  /** Packing that does not make a track shorter is given up. */
  function EncodeTrack(data: seq<byte>): Block
    requires |data| < 0x1_0000
  {
    var ts := Pack(data);
    Block(data, if |Emit(ts)| < |data| then Packed(ts) else Verbatim)
  }

  function EncodeTracks(tracks: seq<seq<byte>>): (bs: seq<Block>)
    requires forall k :: 0 <= k < |tracks| ==> |tracks[k]| < 0x1_0000
    ensures |bs| == |tracks|
    ensures forall k :: 0 <= k < |tracks| ==> bs[k] == EncodeTrack(tracks[k])
  {
    seq(|tracks|, k requires 0 <= k < |tracks| => EncodeTrack(tracks[k]))
  }

  lemma {:induction false} BodySize(bs: seq<Block>, bytesPerTrack: nat)
    requires LegalBlocks(bs, bytesPerTrack)
    ensures |Body(bs, bytesPerTrack)| <= (bytesPerTrack + 2) * |bs|
  {
    if bs != [] {
      BodyNext(bs, bytesPerTrack);
      BodySize(bs[1..], bytesPerTrack);
      hide Body, LegalBlocks, LegalBlock;
      Distribute(bytesPerTrack + 2, 1, |bs| - 1);
    }
  }

  lemma HeaderRoundTrip(h: Header, body: seq<byte>)
    ensures ReadHeader(WriteHeader(h) + body) == h
  {
    hide FromBe16, Be16;
    var f := WriteHeader(h) + body;
    var t3 := Be16(h.endingTrack) + body;
    var t2 := Be16(h.startingTrack) + t3;
    var t1 := Be16(h.sides) + t2;
    var t0 := Be16(h.sectorsPerTrack) + t1;
    assert f == Be16(h.id) + t0 && f[2..] == t0 && f[4..] == t1 && f[6..] == t2 && f[8..] == t3;
    Be16RoundTrip(h.id, t0);
    Be16RoundTrip(h.sectorsPerTrack, t1);
    Be16RoundTrip(h.sides, t2);
    Be16RoundTrip(h.startingTrack, t3);
    Be16RoundTrip(h.endingTrack, body);
  }

  /** Whatever legal coding is chosen for each track, and whatever follows, the decoder's precondition holds of the file. */
  lemma EveryLegalFileIsRead(h: Header, bs: seq<Block>, tail: seq<byte>)
    requires Accepted(h) && LegalBlocks(bs, BytesPerTrack(h)) && |bs| == BlockCount(h)
    requires |MsaFile(h, bs)| + |tail| < TWO_TO_32
    ensures Encodes(MsaFile(h, bs) + tail, bs) && ReadHeader(MsaFile(h, bs) + tail) == h
    ensures Padding(MsaFile(h, bs) + tail, bs) == |tail|
  {
    var n := BytesPerTrack(h);
    var file := MsaFile(h, bs) + tail;
    assert file == WriteHeader(h) + (Body(bs, n) + tail);
    HeaderRoundTrip(h, Body(bs, n) + tail);
    BodySize(bs, n);
    assert bs != [];
    BodyNext(bs, n);
    assert file[HEADER_BYTES..] == Body(bs, n) + tail;
  }

  /** No legal file is too long for the 32-bit byte count. */
  lemma LegalFilesAreSmall(h: Header, bs: seq<Block>)
    requires Accepted(h) && LegalBlocks(bs, BytesPerTrack(h)) && |bs| == BlockCount(h)
    ensures |MsaFile(h, bs)| < TWO_TO_32
  {
    BodySize(bs, BytesPerTrack(h));
    BlocksBound(BytesPerTrack(h) + 2, |bs|);
  }

  lemma BlocksBound(n: nat, count: nat)
    requires n <= 28674 && count <= 174
    ensures n * count <= 28674 * 174
  {
    Distribute(count, n, 28674 - n);
    assert n * count == count * n;
  }

  /** Encoding a disk and decoding the file gives the disk back; `BlockInImage` says where each track lands. */
  lemma EncoderRoundTrip(h: Header, tracks: seq<seq<byte>>)
    requires Accepted(h) && |tracks| == BlockCount(h)
    requires forall k :: 0 <= k < |tracks| ==> |tracks[k]| == BytesPerTrack(h) < 0x1_0000
    ensures var bs := EncodeTracks(tracks);
            && LegalBlocks(bs, BytesPerTrack(h)) && Encodes(MsaFile(h, bs), bs)
            && forall k :: 0 <= k < |tracks| ==> bs[k].data == tracks[k]
  {
    var bs := EncodeTracks(tracks);
    forall k | 0 <= k < |bs| ensures LegalBlock(bs[k], BytesPerTrack(h)) {
      PackExpands(tracks[k]);
    }
    LegalFilesAreSmall(h, bs);
    EveryLegalFileIsRead(h, bs, []);
    assert MsaFile(h, bs) + [] == MsaFile(h, bs);
  }
}
