/**
 * READDIRX answers: how entries are laid out in bytes, what survives when an answer is cut to the
 * receive buffer, and the three loops of sidetnfs_probe.c that take the bytes apart again.
 */
module Wire {
  import opened Words
  import opened Names

  const HEADER_SIZE := 9
  const FIXED_SIZE := 13     // flags, size, mtime, ctime

  predicate Sendable(es: seq<Entry>) {
    forall k :: 0 <= k < |es| ==> CString(es[k].name)
  }

  function Fixed(e: Entry): (b: seq<byte>)
    ensures |b| == FIXED_SIZE && b[0] == e.flags
    ensures b[1..5] == Le32(e.size) && b[5..9] == Le32(e.mtime) && b[9..13] == Le32(e.ctime)
  {
    [e.flags] + Le32(e.size) + Le32(e.mtime) + Le32(e.ctime)
  }

  function Encode(e: Entry): (b: seq<byte>)
    ensures |b| == FIXED_SIZE + |e.name| + 1
  {
    Fixed(e) + e.name + [NUL]
  }

  /** One entry on the wire: flags, size, modification and creation time low byte first, the name and its terminator. */
  lemma EntryByByte(e: Entry)
    ensures Encode(e) ==
              [e.flags,
               e.size % 256, e.size / 256 % 256, e.size / 65536 % 256, e.size / 16777216,
               e.mtime % 256, e.mtime / 256 % 256, e.mtime / 65536 % 256, e.mtime / 16777216,
               e.ctime % 256, e.ctime / 256 % 256, e.ctime / 65536 % 256, e.ctime / 16777216] + e.name + [0]
  {
    assert Fixed(e) ==
             [e.flags,
              e.size % 256, e.size / 256 % 256, e.size / 65536 % 256, e.size / 16777216,
              e.mtime % 256, e.mtime / 256 % 256, e.mtime / 65536 % 256, e.mtime / 16777216,
              e.ctime % 256, e.ctime / 256 % 256, e.ctime / 65536 % 256, e.ctime / 16777216];
  }

  function EncodeAll(es: seq<Entry>): seq<byte> {
    if es == [] then [] else Encode(es[0]) + EncodeAll(es[1..])
  }

  /** The entry with these thirteen bytes in front and this name. */
  function EntryOf(fixed: seq<byte>, name: seq<byte>): Entry
    requires |fixed| == FIXED_SIZE
  {
    Entry(fixed[0], FromLe32(fixed[1..5]), FromLe32(fixed[5..9]), FromLe32(fixed[9..13]), name)
  }

  lemma EntryOfFixed(e: Entry)
    ensures EntryOf(Fixed(e), e.name) == e
  {
    Le32RoundTrip(e.size);
    Le32RoundTrip(e.mtime);
    Le32RoundTrip(e.ctime);
  }

  function EntryAt(b: seq<byte>): Entry
    requires |b| > FIXED_SIZE
  {
    EntryOf(b[..FIXED_SIZE], b[FIXED_SIZE..][..StrNLen(b[FIXED_SIZE..])])
  }

  /** Is there a whole entry, terminator included, at the front of these bytes? */
  predicate HasEntry(b: seq<byte>) {
    |b| > FIXED_SIZE && StrNLen(b[FIXED_SIZE..]) < |b| - FIXED_SIZE
  }

  function EntrySize(b: seq<byte>): (n: nat)
    requires HasEntry(b)
    ensures FIXED_SIZE < n <= |b|
  {
    FIXED_SIZE + StrNLen(b[FIXED_SIZE..]) + 1
  }

  /** The entries that lie wholly inside `b`, at most `count` of them. */
  function Frames(b: seq<byte>, count: nat): (es: seq<Entry>)
    ensures |es| <= count
    ensures Sendable(es)
  {
    if count == 0 || !HasEntry(b) then []
    else [EntryAt(b)] + Frames(b[EntrySize(b)..], count - 1)
  }

  lemma FramesOfNothing(b: seq<byte>, count: nat)
    requires b == []
    ensures Frames(b, count) == []
  {
  }

  /** How many leading entries fit in `room` bytes. */
  function Fits(es: seq<Entry>, room: nat): (n: nat)
    ensures n <= |es|
  {
    if es == [] || |Encode(es[0])| > room then 0
    else 1 + Fits(es[1..], room - |Encode(es[0])|)
  }

  /** `Fits` is the largest prefix whose bytes are all inside the cut. */
  lemma {:induction false} FitsIsMaximal(es: seq<Entry>, room: nat)
    ensures |EncodeAll(es[..Fits(es, room)])| <= room
    ensures Fits(es, room) < |es| ==> |EncodeAll(es[..Fits(es, room) + 1])| > room
    ensures room >= |EncodeAll(es)| ==> Fits(es, room) == |es|
  {
    if es != [] {
      if |Encode(es[0])| <= room {
        var k := Fits(es, room);
        FitsIsMaximal(es[1..], room - |Encode(es[0])|);
        assert es[..k][0] == es[0] && es[..k][1..] == es[1..][..k - 1];
        if k < |es| {
          assert es[..k + 1][0] == es[0] && es[..k + 1][1..] == es[1..][..k];
        }
      } else {
        assert es[..1][0] == es[0];
      }
    }
  }

  lemma StrNLenOfCut(name: seq<byte>, tail: seq<byte>, room: nat)
    requires CString(name) && room <= |name| + 1 + |tail|
    ensures StrNLen((name + [NUL] + tail)[..room]) == if room > |name| then |name| else room
  {
    var n := if room > |name| then |name| else room;
    assert (name + [NUL] + tail)[..room][..n] == name[..n];
    StrNLenIs((name + [NUL] + tail)[..room], n);
  }

  /** Decoding the front entry of a cut encoding, when the entry survived the cut. */
  lemma FrontSurvives(e: Entry, tail: seq<byte>, room: nat)
    requires CString(e.name) && |Encode(e)| <= room <= |Encode(e)| + |tail|
    ensures var b := (Encode(e) + tail)[..room];
            HasEntry(b) && EntrySize(b) == |Encode(e)| && EntryAt(b) == e
  {
    var b := (Encode(e) + tail)[..room];
    assert b[FIXED_SIZE..] == (e.name + [NUL] + tail)[..room - FIXED_SIZE];
    StrNLenOfCut(e.name, tail, room - FIXED_SIZE);
    assert b[..FIXED_SIZE] == Fixed(e);
    EntryOfFixed(e);
    assert b[FIXED_SIZE..][..|e.name|] == e.name;
  }

  lemma FrontLost(e: Entry, tail: seq<byte>, room: nat)
    requires CString(e.name) && room < |Encode(e)|
    ensures !HasEntry((Encode(e) + tail)[..room])
  {
    var b := (Encode(e) + tail)[..room];
    if |b| > FIXED_SIZE {
      assert b[FIXED_SIZE..] == (e.name + [NUL] + tail)[..room - FIXED_SIZE];
      StrNLenOfCut(e.name, tail, room - FIXED_SIZE);
    }
  }

  /** Cutting an encoded list anywhere loses exactly the entries the cut touches. */
  lemma {:induction false} FramesOfCut(es: seq<Entry>, room: nat)
    requires Sendable(es) && room <= |EncodeAll(es)|
    ensures Frames(EncodeAll(es)[..room], |es|) == es[..Fits(es, room)]
  {
    hide HasEntry, EntryAt, EntrySize, Encode;
    if es != [] {
      var e, tail := es[0], EncodeAll(es[1..]);
      var b := (Encode(e) + tail)[..room];
      if |Encode(e)| <= room {
        FrontSurvives(e, tail, room);
        FramesOfCut(es[1..], room - |Encode(e)|);
        assert b[EntrySize(b)..] == tail[..room - |Encode(e)|];
        assert Frames(b, |es|) == [e] + es[1..][..Fits(es[1..], room - |Encode(e)|)];
      } else {
        FrontLost(e, tail, room);
      }
    }
  }

  /** An answer cut to `n` bytes after its header. */
  lemma FramesOfAnswer(head: seq<byte>, es: seq<Entry>, n: nat)
    requires |head| == HEADER_SIZE && Sendable(es) && HEADER_SIZE <= n <= HEADER_SIZE + |EncodeAll(es)|
    ensures Frames((head + EncodeAll(es))[..n][HEADER_SIZE..], |es|) == es[..Fits(es, n - HEADER_SIZE)]
    ensures n == HEADER_SIZE + |EncodeAll(es)| ==> Fits(es, n - HEADER_SIZE) == |es|
  {
    hide *;
    CutBody(head, EncodeAll(es), n);
    FramesOfCut(es, n - HEADER_SIZE);
    FitsIsMaximal(es, n - HEADER_SIZE);
  }

  /** One turn of a parser loop: what the bytes from `needle` on still hold. */
  method NextEntry(buf: seq<byte>, needle: nat, ghost left: nat)
    returns (found: bool, e: Entry, next: nat)
    requires needle <= |buf| && left > 0
    ensures found ==> needle < next <= |buf| && CString(e.name)
    ensures Frames(buf[needle..], left) == if found then [e] + Frames(buf[next..], left - 1) else []
  {
    ghost var b := buf[needle..];
    found, e, next := false, Entry(0, 0, 0, 0, []), needle;
    if needle + FIXED_SIZE >= |buf| { return; }
    var avail := |buf| - (needle + FIXED_SIZE);
    var name := buf[needle + FIXED_SIZE..];
    assert b[FIXED_SIZE..] == name;
    var nlen := StrNLen(name);
    if nlen >= avail { return; }
    assert b[..FIXED_SIZE] == buf[needle..needle + FIXED_SIZE];
    e := EntryOf(buf[needle..needle + FIXED_SIZE], name[..nlen]);
    found, next := true, needle + FIXED_SIZE + 1 + nlen;
    assert b[EntrySize(b)..] == buf[next..];
  }

  // -- What each caller keeps of the frames ---------------------------------------------------

  /** Fsfirst/Fsnext: the entries GEMDOS can see, "." and ".." aside. */
  ghost function Normalized(es: seq<Entry>): seq<AtariEntry> {
    if es == [] then [] else NormalForm(es[0]) + Normalized(es[1..])
  }

  ghost function NormalForm(e: Entry): seq<AtariEntry> {
    if e.name !in [[], [46], [46, 46]] && Visible(e) then [ToAtari(e)] else []
  }

  lemma NormalizedStep(out: seq<AtariEntry>, e: Entry, rest: seq<Entry>)
    ensures out + Normalized([e] + rest) == out + NormalForm(e) + Normalized(rest)
  {
    assert ([e] + rest)[1..] == rest;
  }

  /**
   * `fslisting_parse_batch`: collects at most `maxEntries` normalized entries of the answer in
   * `buf`, which starts with a nine-byte header.
   */
  method FsListingParseBatch(buf: seq<byte>, batch: byte, maxEntries: byte) returns (out: seq<AtariEntry>)
    requires HEADER_SIZE <= |buf|
    ensures var all := Normalized(Frames(buf[HEADER_SIZE..], batch));
            out <= all && |out| <= maxEntries && (|out| == maxEntries || out == all)
  {
    ghost var rest := Frames(buf[HEADER_SIZE..], batch);
    ghost var all := Normalized(rest);
    var needle: nat := HEADER_SIZE;
    out := [];
    var i := 0;
    while i < batch && |out| < maxEntries
      invariant 0 <= i <= batch && |out| <= maxEntries
      invariant HEADER_SIZE <= needle <= |buf|
      invariant rest == Frames(buf[needle..], batch - i)
      invariant out + Normalized(rest) == all
    {
      var found, e, next := NextEntry(buf, needle, batch - i);
      if !found { return; }
      i, needle, rest := i + 1, next, Frames(buf[next..], batch - i - 1);
      NormalizedStep(out, e, rest);
      var form := FormOf(e);
      out := out + form;
    }
  }

  method FormOf(e: Entry) returns (form: seq<AtariEntry>)
    requires CString(e.name)
    ensures form == NormalForm(e)
    ensures |form| <= 1
  {
    if e.Dot() { return []; }
    var atari := NormalizeDirEntry(e);
    return if atari.Some? then [atari.value] else [];
  }

  /** What the root probe counts of a listing. */
  datatype Tally = Tally(dirs: nat, files: nat, total: nat, translated: nat)

  ghost predicate Countable(e: Entry) {
    (e.flags as bv8) & 0x06 == 0 && e.name !in [[], [46], [46, 46]]
  }

  ghost function Added(t: Tally, e: Entry): Tally {
    Tally(t.dirs + if Countable(e) && (e.flags as bv8) & 0x01 != 0 then 1 else 0,
          t.files + if Countable(e) && (e.flags as bv8) & 0x01 == 0 then 1 else 0,
          t.total + if Countable(e) then 1 else 0,
          t.translated + if Visible(e) then 1 else 0)
  }

  ghost function AddedAll(t: Tally, es: seq<Entry>): Tally
    decreases |es|
  {
    if es == [] then t else AddedAll(Added(t, es[0]), es[1..])
  }

  lemma AddedStep(t: Tally, e: Entry, rest: seq<Entry>)
    ensures AddedAll(t, [e] + rest) == AddedAll(Added(t, e), rest)
  {
    assert ([e] + rest)[1..] == rest;
  }

  /** Every counted entry is a directory or a file. */
  lemma {:induction false} TallyAddsUp(t: Tally, es: seq<Entry>)
    requires t.total == t.dirs + t.files
    ensures AddedAll(t, es).total == AddedAll(t, es).dirs + AddedAll(t, es).files
    ensures AddedAll(t, es).total <= t.total + |es|
    decreases |es|
  {
    if es != [] { TallyAddsUp(Added(t, es[0]), es[1..]); }
  }

  /** `parse_readdirx_entries`: the same frames again, counted. */
  method ParseReaddirxEntries(buf: seq<byte>, batch: byte, before: Tally) returns (t: Tally)
    requires HEADER_SIZE <= |buf|
    ensures t == AddedAll(before, Frames(buf[HEADER_SIZE..], batch))
  {
    ghost var rest := Frames(buf[HEADER_SIZE..], batch);
    ghost var all := AddedAll(before, rest);
    var needle: nat := HEADER_SIZE;
    t := before;
    hide Frames, Visible, Added;
    var i := 0;
    while i < batch
      invariant 0 <= i <= batch && HEADER_SIZE <= needle <= |buf|
      invariant rest == Frames(buf[needle..], batch - i) && AddedAll(t, rest) == all
    {
      var found, e, next := NextEntry(buf, needle, batch - i);
      if !found { return; }
      i, needle, rest := i + 1, next, Frames(buf[next..], batch - i - 1);
      AddedStep(t, e, rest);
      t := Count(t, e);
    }
    FramesOfNone(buf[needle..]);
  }

  lemma FramesOfNone(b: seq<byte>)
    ensures Frames(b, 0) == []
  {
  }

  method Count(t: Tally, e: Entry) returns (t': Tally)
    requires CString(e.name)
    ensures t' == Added(t, e)
  {
    t' := t;
    var atari := NormalizeDirEntry(e);
    if atari.Some? { t' := t'.(translated := t'.translated + 1); }
    if e.Hidden() || e.Special() { return; }
    if e.Dot() { return; }
    if e.Directory() {
      t' := t'.(dirs := t'.dirs + 1);
    } else {
      t' := t'.(files := t'.files + 1);
    }
    t' := t'.(total := t'.total + 1);
  }
}
