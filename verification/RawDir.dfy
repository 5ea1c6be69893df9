/**
 * Raw directory access for the floppy browser (sidetnfs_probe.c, 4441-4815): READDIRX fetches up to
 * fifteen entries at a time, and a cache hands them out one per call.
 *
 * A directory is followed by positions: `served` lists the positions of the entries delivered on
 * the current handle, so repeats and reordering are visible even between entries of equal name.
 */
module RawDir {
  import opened Words
  import opened Names
  import opened Wire
  import opened Tnfs

  const BATCH := 15
  const SKIP_ROUNDS := 8
  const NETWORK_RETRIES := 3
  const RAW_NAME_MAX := 256

  datatype RawEntry = RawEntry(name: seq<byte>, isDir: bool)

  datatype OpenResult = DirOk(handle: byte) | DirNotFound | DirAccessDenied | DirPathTooLong | DirError

  datatype ReadResult = Found(entry: RawEntry) | EndOfDirectory | Failed

  /** `sidetnfs_tnfs_raw_readdir_cache_t`; its `count` is the length of `entries`. */
  datatype Cache = Cache(valid: bool, slot: int, dirHandle: byte, nextIndex: nat, hitEof: bool, entries: seq<RawEntry>)

  /** How one READDIRX round of `raw_readdir` can end. */
  datatype Round = Refilled | NoAnswer | GaveUp

  /** What the browser may see: no ".", "..", special or over-long names. */
  predicate Usable(e: Entry) {
    !e.Dot() && !e.Special() && |e.name| < RAW_NAME_MAX
  }

  function ToRaw(e: Entry): RawEntry {
    RawEntry(e.name, e.Directory())
  }

  function Here(dir: seq<Entry>, p: nat): seq<nat>
    requires p < |dir|
  {
    if Usable(dir[p]) then [p] else []
  }

  /** The usable positions from `from` up to `to`. */
  function UsableRange(dir: seq<Entry>, from: nat, to: nat): seq<nat>
    requires from <= to <= |dir|
    decreases |dir| - from
  {
    if from == to then [] else Here(dir, from) + UsableRange(dir, from + 1, to)
  }

  function AllUsable(dir: seq<Entry>): seq<nat> {
    UsableRange(dir, 0, |dir|)
  }

  /** Positions of `dir`, each usable, in strictly increasing order, all in `[lo, hi)`. */
  ghost predicate Ordered(dir: seq<Entry>, at: seq<nat>, lo: nat, hi: nat) {
    && (forall i :: 0 <= i < |at| ==> lo <= at[i] < hi && at[i] < |dir| && Usable(dir[at[i]]))
    && (forall i, j :: 0 <= i < j < |at| ==> at[i] < at[j])
  }

  lemma OrderedConcat(dir: seq<Entry>, a: seq<nat>, b: seq<nat>, lo: nat, mid: nat, hi: nat)
    requires Ordered(dir, a, lo, mid) && Ordered(dir, b, mid, hi) && lo <= mid <= hi
    ensures Ordered(dir, a + b, lo, hi)
  {
  }

  lemma OrderedWiden(dir: seq<Entry>, at: seq<nat>, lo: nat, mid: nat, hi: nat)
    requires Ordered(dir, at, lo, mid) && mid <= hi
    ensures Ordered(dir, at, lo, hi)
  {
  }

  lemma {:induction false} UsableRangeOrdered(dir: seq<Entry>, from: nat, to: nat)
    requires from <= to <= |dir|
    ensures Ordered(dir, UsableRange(dir, from, to), from, to)
    decreases |dir| - from
  {
    if from < to {
      UsableRangeOrdered(dir, from + 1, to);
      OrderedConcat(dir, Here(dir, from), UsableRange(dir, from + 1, to), from, from + 1, to);
    }
  }

  lemma {:induction false} UsableRangeSplit(dir: seq<Entry>, from: nat, mid: nat, to: nat)
    requires from <= mid <= to <= |dir|
    ensures UsableRange(dir, from, to) == UsableRange(dir, from, mid) + UsableRange(dir, mid, to)
    decreases |dir| - from
  {
    if from < mid {
      UsableRangeSplit(dir, from + 1, mid, to);
      assert UsableRange(dir, from, to) == Here(dir, from) + UsableRange(dir, from + 1, to);
    }
  }

  lemma UsableRangeEmpty(dir: seq<Entry>, p: nat)
    requires p <= |dir|
    ensures UsableRange(dir, p, p) == []
  {
  }

  lemma UsableRangeExtend(dir: seq<Entry>, from: nat, to: nat)
    requires from <= to < |dir|
    ensures UsableRange(dir, from, to + 1) == UsableRange(dir, from, to) + Here(dir, to)
  {
    UsableRangeSplit(dir, from, to, to + 1);
    assert UsableRange(dir, to, to + 1) == Here(dir, to) + UsableRange(dir, to + 1, to + 1);
  }

  /**
   * `served` has been delivered and `pending` is cached.  Whatever was lost, the two together are
   * an ordered selection of what the server has handed out; if nothing was lost, they are complete.
   */
  ghost predicate Track(c: Cursor, served: seq<nat>, pending: seq<nat>) {
    && GoodCursor(c)
    && Ordered(c.dir, served + pending, 0, c.pos)
    && (c.intact ==> served + pending + UsableRange(c.dir, c.pos, |c.dir|) == AllUsable(c.dir))
  }

  lemma TrackFresh(dir: seq<Entry>)
    requires Sendable(dir)
    ensures Track(Cursor(dir, 0, true), [], [])
  {
    assert [] + [] + AllUsable(dir) == AllUsable(dir);
  }

  lemma TrackServe(c: Cursor, served: seq<nat>, pending: seq<nat>)
    requires Track(c, served, pending) && pending != []
    ensures Track(c, served + [pending[0]], pending[1..])
  {
    assert served + [pending[0]] + pending[1..] == served + pending;
  }

  /** A fetch that brought the first `got` of the entries the server handed out. */
  lemma TrackFetch(c: Cursor, served: seq<nat>, c': Cursor, got: nat)
    requires Track(c, served, [])
    requires c'.dir == c.dir && c.pos + got <= c'.pos <= |c.dir|
    requires c'.intact ==> c.intact && c'.pos == c.pos + got
    ensures Track(c', served, UsableRange(c.dir, c.pos, c.pos + got))
  {
    hide UsableRange, Ordered, Sendable;
    var dir, more := c.dir, UsableRange(c.dir, c.pos, c.pos + got);
    assert served + [] == served;
    UsableRangeOrdered(dir, c.pos, c.pos + got);
    OrderedWiden(dir, more, c.pos, c.pos + got, c'.pos);
    OrderedConcat(dir, served, more, 0, c.pos, c'.pos);
    if c'.intact {
      UsableRangeSplit(dir, c.pos, c'.pos, |dir|);
      assert served + more + UsableRange(dir, c'.pos, |dir|) == served + UsableRange(dir, c.pos, |dir|);
    }
  }

  /** Nothing cached and nothing left on the server: the delivered entries are all there are. */
  lemma TrackDone(c: Cursor, served: seq<nat>)
    requires Track(c, served, []) && c.pos == |c.dir| && c.intact
    ensures served == AllUsable(c.dir)
  {
    assert served + [] + UsableRange(c.dir, c.pos, |c.dir|) == served;
  }

  lemma TrackPrefix(c: Cursor, served: seq<nat>, pending: seq<nat>)
    requires Track(c, served, pending)
    ensures Ordered(c.dir, served, 0, |c.dir|)
    ensures c.intact ==> served <= AllUsable(c.dir)
  {
    assert served == (served + pending)[..|served|];
    if c.intact {
      assert served + pending + UsableRange(c.dir, c.pos, |c.dir|)
          == served + (pending + UsableRange(c.dir, c.pos, |c.dir|));
    }
  }

  /** `rows` are the entries at `at`, in the form they are cached in. */
  ghost predicate Cached(dir: seq<Entry>, at: seq<nat>, rows: seq<RawEntry>) {
    |rows| == |at| && forall i :: 0 <= i < |at| ==> at[i] < |dir| && rows[i] == ToRaw(dir[at[i]])
  }

  /** The cache holds `at[nextIndex..]` of the directory behind `c`, and `served` came before. */
  ghost predicate CacheOk(c: Cursor, served: seq<nat>, cache: Cache, at: seq<nat>) {
    && cache.nextIndex <= |at| <= BATCH && Cached(c.dir, at, cache.entries)
    && Track(c, served, at[cache.nextIndex..])
    && (cache.hitEof ==> c.pos == |c.dir|)
  }

  lemma CacheServe(c: Cursor, served: seq<nat>, cache: Cache, at: seq<nat>)
    requires CacheOk(c, served, cache, at) && cache.nextIndex < |at|
    ensures CacheOk(c, served + [at[cache.nextIndex]], cache.(nextIndex := cache.nextIndex + 1), at)
  {
    TrackServe(c, served, at[cache.nextIndex..]);
    assert at[cache.nextIndex..][1..] == at[cache.nextIndex + 1..];
  }

  /** Eight fetches, and none of the first seven brought a usable entry: the reader gives up. */
  predicate Starved(got: seq<nat>) {
    |got| == 8 && forall i :: 0 <= i < 7 ==> got[i] == 0
  }

  const DROUGHT := 7

  /** Nothing usable from `from` up to `to`. */
  ghost predicate Dry(dir: seq<Entry>, from: nat, to: nat) {
    from <= to <= |dir| && UsableRange(dir, from, to) == []
  }

  /** No seven entries in a row are unusable. */
  ghost predicate NoDrought(dir: seq<Entry>) {
    forall p: nat, q: nat :: q == p + DROUGHT && q <= |dir| ==> UsableRange(dir, p, q) != []
  }

  /** Fetches that brought nothing usable have passed a stretch of unusable entries. */
  ghost predicate DryRounds(c: Cursor, c': Cursor, rounds: nat, eof: bool) {
    c'.dir == c.dir && Dry(c.dir, c.pos, c'.pos) && (eof || c'.pos >= c.pos + rounds)
  }

  /** A cursor only moves on in its directory, and whatever spoils it is counted as lost. */
  ghost predicate MovesOn(c: Cursor, c': Cursor, lost: nat, lost': nat) {
    && c'.dir == c.dir && (c'.intact ==> c.intact) && lost <= lost'
    && (c.intact && !c'.intact ==> lost < lost')
  }

  /** The result of one read: the next row, the end of the directory, or nothing. */
  ghost predicate Gives(r: ReadResult, dir: seq<Entry>, served: seq<nat>, served': seq<nat>, complete: bool) {
    match r
    case Found(entry) =>
      && |served'| == |served| + 1 && served'[..|served|] == served
      && served'[|served|] < |dir| && entry == ToRaw(dir[served'[|served|]])
    case EndOfDirectory => served' == served && (complete ==> served == AllUsable(dir))
    case Failed => served' == served
  }

  /**
   * Without a fault nothing is lost if all answers fit; and the reader does not starve if nothing is
   * lost, the server is prompt, and the directory has no seven unusable entries in a row.
   */
  ghost predicate Calm(dir: seq<Entry>, prompt: bool, lost: nat, lost': nat, starved: nat, starved': nat) {
    && lost <= lost' && starved <= starved' && (AnswersFit(dir, BATCH) ==> lost' == lost)
    && (lost' == lost && prompt && NoDrought(dir) ==> starved' == starved)
  }

  lemma CalmChain(dir: seq<Entry>, prompt: bool, lost: nat, lost1: nat, lost2: nat, starved: nat, starved1: nat, starved2: nat)
    requires Calm(dir, prompt, lost, lost1, starved, starved1) && Calm(dir, prompt, lost1, lost2, starved1, starved2)
    ensures Calm(dir, prompt, lost, lost2, starved, starved2)
  {
    hide AnswersFit, NoDrought;
  }

  lemma CalmEnds(dir: seq<Entry>, prompt: bool, lost: nat, lost': nat, starved: nat)
    requires Calm(dir, prompt, lost, lost', starved, starved) && (lost' == lost && prompt ==> !NoDrought(dir))
    ensures Calm(dir, prompt, lost, lost', starved, starved + 1)
  {
    hide AnswersFit, NoDrought;
  }

  lemma CalmFacts(dir: seq<Entry>, prompt: bool, lost: nat, lost': nat, starved: nat, starved': nat)
    ensures Calm(dir, prompt, lost, lost', starved, starved') && AnswersFit(dir, BATCH) ==>
              lost' == lost && (prompt && NoDrought(dir) ==> starved' == starved)
  {
  }

  lemma StillCalm(dir: seq<Entry>, prompt: bool, lost: nat, starved: nat)
    ensures Calm(dir, prompt, lost, lost, starved, starved)
  {
  }

  lemma MovesOnChain(c: Cursor, c1: Cursor, c2: Cursor, lost: nat, lost1: nat, lost2: nat)
    requires MovesOn(c, c1, lost, lost1) && MovesOn(c1, c2, lost1, lost2)
    ensures MovesOn(c, c2, lost, lost2) && c1.dir == c.dir && lost <= lost1 <= lost2
  {
  }

  /** What has been delivered: usable, in order, and all there was so far if nothing was lost. */
  ghost predicate InOrder(c: Cursor, served: seq<nat>) {
    Ordered(c.dir, served, 0, |c.dir|) && (c.intact ==> served <= AllUsable(c.dir))
  }

  /** An answer that lost nothing brought `got` usable entries; a prompt server sends something or says EOF. */
  ghost predicate Brought(c: Cursor, c': Cursor, got: nat, eof: bool, prompt: bool) {
    && c'.dir == c.dir && c.pos <= c'.pos <= |c.dir| && got == |UsableRange(c.dir, c.pos, c'.pos)|
    && (prompt ==> eof || c'.pos > c.pos)
  }

  lemma DryStart(c: Cursor, eof: bool)
    requires c.pos <= |c.dir|
    ensures DryRounds(c, c, 0, eof)
  {
  }

  /** One more fetch; if it brought something usable there is nothing to say. */
  lemma DryNext(c: Cursor, c1: Cursor, c2: Cursor, rounds: nat, got: nat, eof: bool)
    requires DryRounds(c, c1, rounds, false) && Brought(c1, c2, got, eof, true)
    ensures got == 0 ==> DryRounds(c, c2, rounds + 1, eof)
  {
    UsableRangeSplit(c.dir, c.pos, c1.pos, c2.pos);
    hide UsableRange;
  }

  lemma DryTooLong(c: Cursor, c': Cursor)
    requires DryRounds(c, c', DROUGHT, false)
    ensures !NoDrought(c.dir)
  {
    UsableRangeSplit(c.dir, c.pos, c.pos + DROUGHT, c'.pos);
    hide UsableRange;
  }

  /**
   * A read in progress: `got` says what each fetch brought and `left` what is still cached.  If it is
   * `quiet` (nothing failed or was lost, and the server is prompt), each of them got further.
   */
  ghost predicate Reading(c: Cursor, c': Cursor, got: seq<nat>, left: nat, eof: bool, quiet: bool) {
    && (forall i :: 0 <= i < |got| - 1 ==> got[i] == 0) && (got != [] ==> got[|got| - 1] == left)
    && (quiet && left == 0 ==> DryRounds(c, c', |got|, got != [] && eof))
    && (quiet && |got| > DROUGHT ==> !NoDrought(c.dir))
  }

  lemma ReadingStarts(c: Cursor, left: nat, eof: bool)
    requires c.pos <= |c.dir|
    ensures Reading(c, c, [], left, eof, true)
  {
    DryStart(c, false);
  }

  lemma ReadingNext(c: Cursor, c1: Cursor, c2: Cursor, got: seq<nat>, left: nat, eof: bool, quiet1: bool, quiet2: bool)
    requires Reading(c, c1, got, 0, false, quiet1) && (quiet2 ==> quiet1 && Brought(c1, c2, left, eof, true))
    ensures Reading(c, c2, got + [left], left, eof, quiet2)
  {
    hide NoDrought, DryRounds, Brought;
    if quiet2 {
      DryNext(c, c1, c2, |got|, left, eof);
      if |got| == DROUGHT { DryTooLong(c, c1); }
    }
  }

  /** The rounds are used up. */
  lemma ReadingEnds(c: Cursor, c': Cursor, got: seq<nat>, left: nat, eof: bool, quiet: bool)
    requires Reading(c, c', got, left, eof, quiet) && |got| == SKIP_ROUNDS
    ensures Starved(got) && (quiet ==> !NoDrought(c.dir))
  {
  }

  lemma FetchedNothing(c: Cursor, served: seq<nat>, c': Cursor, sent: seq<Entry>)
    requires Track(c, served, []) && GoodCursor(c')
    requires c'.dir == c.dir && c'.pos == c.pos + |sent|
    requires c'.intact ==> c.intact && sent == []
    ensures Track(c', served, [])
  {
    UsableRangeEmpty(c.dir, c.pos);
    TrackFetch(c, served, c', 0);
  }

  /** The usable ones of `got` entries from position `pos` on, in the form they are cached in. */
  ghost predicate Rows(dir: seq<Entry>, pos: nat, got: nat, rows: seq<RawEntry>) {
    pos + got <= |dir| && |rows| <= got && Cached(dir, UsableRange(dir, pos, pos + got), rows)
  }

  lemma NoRows(dir: seq<Entry>, pos: nat)
    requires pos <= |dir|
    ensures Rows(dir, pos, 0, [])
  {
  }

  function Keep(rows: seq<RawEntry>, e: Entry): seq<RawEntry> {
    if Usable(e) then rows + [ToRaw(e)] else rows
  }

  lemma MoreRows(dir: seq<Entry>, pos: nat, got: nat, rows: seq<RawEntry>)
    requires Rows(dir, pos, got, rows) && pos + got < |dir|
    ensures Rows(dir, pos, got + 1, Keep(rows, dir[pos + got])) && |Keep(rows, dir[pos + got])| <= got + 1
  {
    var at, p := UsableRange(dir, pos, pos + got), pos + got;
    UsableRangeExtend(dir, pos, p);
    hide UsableRange, Cached, Usable, ToRaw;
    if Usable(dir[p]) {
      CachedMore(dir, at, rows, p);
      assert Here(dir, p) == [p];
    } else {
      assert at + Here(dir, p) == at;
    }
  }

  lemma CachedMore(dir: seq<Entry>, at: seq<nat>, rows: seq<RawEntry>, p: nat)
    requires Cached(dir, at, rows) && p < |dir|
    ensures Cached(dir, at + [p], rows + [ToRaw(dir[p])]) && |at| == |rows|
  {
  }

  /** A freshly filled cache. */
  lemma RowsBehindCache(c: Cursor, c': Cursor, served: seq<nat>, got: nat, rows: seq<RawEntry>, eof: bool)
    requires Rows(c.dir, c.pos, got, rows) && got <= BATCH && c'.dir == c.dir
    requires Track(c', served, UsableRange(c.dir, c.pos, c.pos + got)) && (eof ==> c'.pos == |c'.dir|)
    ensures forall valid, slot, h ::
              CacheOk(c', served, Cache(valid, slot, h, 0, eof, rows), UsableRange(c.dir, c.pos, c.pos + got))
  {
    var at := UsableRange(c.dir, c.pos, c.pos + got);
    hide Track, UsableRange;
    assert at[0..] == at;
  }

  /** The cache contents after an answer that moved the server from `c` to `c'`. */
  method TakeAnswer(resp: seq<byte>, batch: byte, ghost c: Cursor, ghost served: seq<nat>, ghost c': Cursor, ghost got: nat)
    returns (entries: seq<RawEntry>)
    requires Track(c, served, []) && c'.dir == c.dir
    requires c.pos + got <= c'.pos <= |c.dir| && got <= BATCH && (c'.intact ==> c.intact && c'.pos == c.pos + got)
    requires c.dir[c.pos..c.pos + got] == if |resp| < HEADER_SIZE then [] else Frames(resp[HEADER_SIZE..], batch)
    ensures Rows(c.dir, c.pos, got, entries) && Track(c', served, UsableRange(c.dir, c.pos, c.pos + got))
  {
    hide *;
    TrackFetch(c, served, c', got);
    entries := [];
    if batch == 0 || |resp| <= HEADER_SIZE {
      if |resp| == HEADER_SIZE { FramesOfNothing(resp[HEADER_SIZE..], batch); }
      assert got == |c.dir[c.pos..c.pos + got]| == 0;
      NoRows(c.dir, c.pos);
    } else {
      entries := ParseRawBatch(resp, batch, c.dir, c.pos, got);
    }
  }

  /** The parser loop inside `raw_readdir`: the usable entries of the answer. */
  method ParseRawBatch(buf: seq<byte>, batch: byte, ghost dir: seq<Entry>, ghost pos: nat, ghost got: nat)
    returns (out: seq<RawEntry>)
    requires HEADER_SIZE <= |buf|
    requires pos + got <= |dir| && got <= BATCH
    requires Frames(buf[HEADER_SIZE..], batch) == dir[pos..pos + got]
    ensures Rows(dir, pos, got, out)
  {
    NothingParsed(buf, batch, dir, pos, got);
    out := ParseRows(buf, batch, dir, pos, got);
  }

  method ParseRows(buf: seq<byte>, batch: byte, ghost dir: seq<Entry>, ghost pos: nat, ghost got: nat) returns (out: seq<RawEntry>)
    requires Parsed(buf, HEADER_SIZE, batch, dir, pos, got, 0, [])
    ensures Rows(dir, pos, got, out)
  {
    var needle: nat := HEADER_SIZE;
    hide *;
    out := [];
    var i: nat := 0;
    while i < batch && |out| < BATCH
      invariant i <= batch && Parsed(buf, needle, batch - i, dir, pos, got, i, out)
    {
      var found;
      found, out, needle := ParseRow(buf, needle, batch - i, out, dir, pos, got, i);
      if !found { return; }
      i := i + 1;
    }
    AllParsed(buf, needle, batch - i, dir, pos, got, i, out);
  }

  /** `i` entries of the answer have been taken, and `left` more may follow at `needle`. */
  ghost predicate Parsed(buf: seq<byte>, needle: nat, left: nat, dir: seq<Entry>, pos: nat, got: nat, i: nat, rows: seq<RawEntry>) {
    && needle <= |buf| && i <= got && pos + got <= |dir| && got <= BATCH
    && |rows| <= i && Rows(dir, pos, i, rows)
    && Frames(buf[needle..], left) == Window(dir, pos, got, i)
  }

  lemma AllParsed(buf: seq<byte>, needle: nat, left: nat, dir: seq<Entry>, pos: nat, got: nat, i: nat, rows: seq<RawEntry>)
    requires Parsed(buf, needle, left, dir, pos, got, i, rows) && (left == 0 || |rows| >= BATCH)
    ensures Rows(dir, pos, got, rows)
  {
    hide Rows, Frames;
    if left == 0 {
      FramesOfNone(buf[needle..]);
      WindowClosed(dir, pos, got, i);
    }
  }

  lemma NothingParsed(buf: seq<byte>, left: nat, dir: seq<Entry>, pos: nat, got: nat)
    requires HEADER_SIZE <= |buf| && pos + got <= |dir| && got <= BATCH
    requires Frames(buf[HEADER_SIZE..], left) == dir[pos..pos + got]
    ensures Parsed(buf, HEADER_SIZE, left, dir, pos, got, 0, [])
  {
    hide Frames, Rows;
    NoRows(dir, pos);
    WindowOpen(dir, pos, got);
  }

  /** One turn of the parser loop. */
  method ParseRow(buf: seq<byte>, needle: nat, left: nat, rows: seq<RawEntry>, ghost dir: seq<Entry>, ghost pos: nat, ghost got: nat, ghost i: nat)
    returns (found: bool, rows': seq<RawEntry>, next: nat)
    requires left > 0 && Parsed(buf, needle, left, dir, pos, got, i, rows)
    ensures found ==> needle < next <= |buf| && Parsed(buf, next, left - 1, dir, pos, got, i + 1, rows')
    ensures !found ==> Rows(dir, pos, got, rows')
  {
    hide Rows, Frames, Window, Keep;
    rows' := rows;
    var e;
    found, e, next := NextEntry(buf, needle, left);
    if !found {
      WindowClosed(dir, pos, got, i);
      return;
    }
    FrameMeetsRow(dir, pos, got, i, e, Frames(buf[next..], left - 1));
    MoreRows(dir, pos, i, rows);
    rows' := KeepUsable(rows, e);
  }

  /** The entries of an answer that are still to be parsed. */
  function Window(dir: seq<Entry>, pos: nat, got: nat, i: nat): seq<Entry>
    requires i <= got && pos + got <= |dir|
  {
    dir[pos + i..pos + got]
  }

  lemma WindowClosed(dir: seq<Entry>, pos: nat, got: nat, i: nat)
    requires i <= got && pos + got <= |dir| && Window(dir, pos, got, i) == []
    ensures i == got
  {
  }

  lemma WindowOpen(dir: seq<Entry>, pos: nat, got: nat)
    requires pos + got <= |dir|
    ensures Window(dir, pos, got, 0) == dir[pos..pos + got]
  {
  }

  /** The tests on one entry, and its copy into the cache. */
  method KeepUsable(rows: seq<RawEntry>, e: Entry) returns (r: seq<RawEntry>)
    ensures r == Keep(rows, e)
  {
    r := rows;
    if e.Dot() || e.Special() || |e.name| >= RAW_NAME_MAX { return; }
    r := r + [RawEntry(e.name, e.Directory())];
  }

  lemma FrameMeetsRow(dir: seq<Entry>, pos: nat, got: nat, i: nat, e: Entry, more: seq<Entry>)
    requires i <= got && pos + got <= |dir| && Window(dir, pos, got, i) == [e] + more
    ensures i < got && e == dir[pos + i] && more == Window(dir, pos, got, i + 1)
  {
    var w := dir[pos + i..pos + got];
    assert |w| == got - i && w[0] == e;
    assert more == w[1..];
  }

  class RawReader {
    const net: Net
    var cache: Cache

    // The handle being listed, the positions delivered on it, and those behind `cache.entries`.
    ghost var current: Option<Handle>
    ghost var served: seq<nat>
    ghost var cachedAt: seq<nat>
    // Handles obtained whose close has not been attempted yet.
    ghost var unclosed: set<Handle>
    // How often a read gave up although the server had not said EOF.
    ghost var starvations: nat

    ghost predicate Keyed()
      reads this
    {
      current.Some? && cache.valid && current.value == (cache.slot, cache.dirHandle)
    }

    ghost predicate Valid()
      reads this, net
    {
      && net.Valid()
      && unclosed <= net.open.Keys
      && (current.Some? ==>
            && current.value in unclosed
            && if Keyed() then CacheOk(net.open[current.value], served, cache, cachedAt)
               else served == [] && net.open[current.value] == Cursor(net.open[current.value].dir, 0, true))
    }

    /** The server's side of the handle being listed. */
    ghost function Server(): Cursor
      reads this, net
      requires Valid() && current.Some?
    {
      net.open[current.value]
    }

    constructor (net: Net)
      requires net.Valid()
      ensures Valid() && this.net == net
      ensures current == None && unclosed == {}
    {
      this.net := net;
      cache := Cache(false, 0, 0, 0, false, []);
      current, served, cachedAt, unclosed, starvations := None, [], [], {}, 0;
    }

    method OpenDir(slot: int, path: seq<byte>) returns (r: OpenResult)
      requires Valid()
      modifies this`cache, this`current, this`served, this`unclosed, net`open, net`resp, net`faults
      ensures Valid()
      ensures r.DirOk? ==>
                && (slot, path) in net.dirs
                && |path| < MAX_FOLDER_LENGTH
                && (slot, r.handle) !in old(unclosed)
                && unclosed == old(unclosed) + {(slot, r.handle)}
                && current == Some((slot, r.handle)) && served == []
                && Server() == Cursor(net.dirs[(slot, path)], 0, true)
      ensures |path| >= MAX_FOLDER_LENGTH <==> r == DirPathTooLong
      ensures net.faults >= old(net.faults)
      ensures net.faults == old(net.faults) && |path| < MAX_FOLDER_LENGTH ==>
                if (slot, path) in net.dirs then r.DirOk? else r == DirNotFound
      ensures !r.DirOk? ==>
                && current == old(current) && served == old(served) && unclosed == old(unclosed)
                && (current.Some? ==> Server() == old(Server()))
    {
      hide CacheOk, GoodCursor, Sendable;
      if |path| >= MAX_FOLDER_LENGTH { return DirPathTooLong; }
      var up := net.SlotUp(slot);
      if !up { return DirError; }
      var x := net.OpenDirX(slot, path);
      if !x.Answered? { return DirError; }
      var rc, handle := net.Rc(), net.Count();
      if rc == TNFS_OK {
        cache := cache.(valid := false);
        current, served, unclosed := Some((slot, handle)), [], unclosed + {(slot, handle)};
        return DirOk(handle);
      }
      if rc == TNFS_ENOENT || rc == TNFS_ENOTDIR { return DirNotFound; }
      if rc == TNFS_EACCES { return DirAccessDenied; }
      return DirError;
    }

    method CloseDir(slot: int, handle: byte)
      requires Valid() && (slot, handle) in unclosed
      modifies this`current, this`unclosed, net`open, net`resp, net`faults
      ensures Valid()
      ensures unclosed == old(unclosed) - {(slot, handle)} && net.faults >= old(net.faults)
      ensures net.faults == old(net.faults) ==> (slot, handle) !in net.open
      ensures old(current) != Some((slot, handle)) ==>
                current == old(current) && (current.Some? ==> Server() == old(Server()))
      ensures old(current) == Some((slot, handle)) ==> current == None
    {
      hide CacheOk, GoodCursor, Sendable;
      unclosed := unclosed - {(slot, handle)};
      if current == Some((slot, handle)) { current := None; }
      var up := net.SlotUp(slot);
      if !up { return; }
      var x := net.CloseDirX(slot, handle);
    }

    /**
     * The next raw entry of the directory being listed.  `got` counts the usable entries each
     * fetch of this call brought in.
     */
    method ReadDir(slot: int, handle: byte) returns (r: ReadResult, ghost got: seq<nat>)
      requires Valid() && current == Some((slot, handle))
      modifies this`cache, this`served, this`cachedAt, this`starvations, net`open, net`resp, net`faults, net`lost
      ensures Valid()
      ensures MovesOn(old(Server()), Server(), old(net.lost), net.lost) && InOrder(Server(), served)
      ensures net.faults >= old(net.faults) && (r.Failed? ==> net.faults > old(net.faults))
      ensures starvations == old(starvations) + if Starved(got) then 1 else 0
      ensures net.faults == old(net.faults) ==>
                Calm(old(Server()).dir, net.prompt, old(net.lost), net.lost, old(starvations), starvations)
      ensures Gives(r, Server().dir, old(served), served, Server().intact && !Starved(got))
    {
      hide CacheOk, Track, UsableRange, AllUsable, Sendable, NoDrought, AnswersFit, InOrder, GoodCursor;
      got := [];
      Rekey(slot, handle);
      ReaderFacts();
      var up := net.SlotUp(slot);
      if !up { return Failed, got; }
      r, got := ReadRounds(slot, handle);
    }

    /** The rounds of it: serve from the cache, or fetch again. */
    method ReadRounds(slot: int, handle: byte) returns (r: ReadResult, ghost got: seq<nat>)
      requires Valid() && Keyed() && current == Some((slot, handle))
      modifies this`cache, this`served, this`cachedAt, this`starvations, net`open, net`resp, net`faults, net`lost
      ensures Valid()
      ensures MovesOn(old(Server()), Server(), old(net.lost), net.lost) && InOrder(Server(), served)
      ensures net.faults >= old(net.faults) && (r.Failed? ==> net.faults > old(net.faults))
      ensures starvations == old(starvations) + if Starved(got) then 1 else 0
      ensures net.faults == old(net.faults) ==>
                Calm(old(Server()).dir, net.prompt, old(net.lost), net.lost, old(starvations), starvations)
      ensures Gives(r, Server().dir, old(served), served, Server().intact && !Starved(got))
    {
      ghost var c, lost, faults := Server(), net.lost, net.faults;
      got := [];
      MidwayStarts();
      hide Valid, Keyed, Server, Midway, MovesOn, InOrder, Calm, AllUsable, ToRaw;
      var networkRetriesLeft := NETWORK_RETRIES;
      for round := 0 to SKIP_ROUNDS
        invariant Midway(c, got, lost, faults) && |got| == round && current == Some((slot, handle))
        invariant starvations == old(starvations) && served == old(served)
        invariant networkRetriesLeft < NETWORK_RETRIES ==> net.faults > faults
      {
        MidwayFacts(c, got, lost, faults);
        if cache.nextIndex < |cache.entries| {
          var e := Serve();
          ReaderFacts();
          return Found(e), got;
        }
        if cache.hitEof {
          Drained();
          return EndOfDirectory, got;
        }
        var answer := Refill(slot, handle, c, got, lost, faults);
        ghost var got' := got + [|cache.entries| - cache.nextIndex];
        MidwayFacts(c, got', lost, faults);
        if answer.GaveUp? { return Failed, got; }
        if answer.NoAnswer? {
          if networkRetriesLeft <= 0 { return Failed, got; }
          networkRetriesLeft := networkRetriesLeft - 1;
        }
        got := got';
      }
      MidwayEnds(c, got, lost, faults);
      Starve();
      return EndOfDirectory, got;
    }

    /** Between two rounds of a read that began at `c`. */
    ghost predicate Midway(c: Cursor, got: seq<nat>, lost: nat, faults: nat)
      reads this, net
    {
      && Valid() && Keyed() && cache.nextIndex <= |cache.entries| && faults <= net.faults
      && MovesOn(c, Server(), lost, net.lost) && InOrder(Server(), served)
      && (net.faults == faults ==> Calm(c.dir, net.prompt, lost, net.lost, starvations, starvations))
      && Reading(c, Server(), got, |cache.entries| - cache.nextIndex, cache.hitEof,
                 net.faults == faults && net.lost == lost && net.prompt)
    }

    lemma MidwayStarts()
      requires Valid() && Keyed()
      ensures Midway(Server(), [], net.lost, net.faults)
    {
      assert GoodCursor(Server());
      ReaderFacts();
      hide CacheOk, Track, Ordered, AllUsable, NoDrought, AnswersFit, Sendable, UsableRange;
      ReadingStarts(Server(), |cache.entries| - cache.nextIndex, cache.hitEof);
    }

    lemma MidwayFacts(c: Cursor, got: seq<nat>, lost: nat, faults: nat)
      requires Midway(c, got, lost, faults)
      ensures Valid() && Keyed() && cache.nextIndex <= |cache.entries| && faults <= net.faults
      ensures MovesOn(c, Server(), lost, net.lost) && InOrder(Server(), served)
      ensures net.faults == faults ==> Calm(c.dir, net.prompt, lost, net.lost, starvations, starvations)
    {
      hide Valid, MovesOn, InOrder, Calm, Reading;
    }

    /** The rounds are used up. */
    lemma MidwayEnds(c: Cursor, got: seq<nat>, lost: nat, faults: nat)
      requires Midway(c, got, lost, faults) && |got| == SKIP_ROUNDS
      ensures Valid() && Keyed() && faults <= net.faults && Starved(got)
      ensures MovesOn(c, Server(), lost, net.lost) && InOrder(Server(), served)
      ensures net.faults == faults ==> Calm(c.dir, net.prompt, lost, net.lost, starvations, starvations + 1)
    {
      hide Valid, MovesOn, InOrder, Calm, Reading, Starved, Server;
      var quiet := net.faults == faults && net.lost == lost && net.prompt;
      ReadingEnds(c, Server(), got, |cache.entries| - cache.nextIndex, cache.hitEof, quiet);
      if net.faults == faults { CalmEnds(c.dir, net.prompt, lost, net.lost, starvations); }
    }

    /** The cache is drained and the end has not been flagged: one more fetch. */
    method Refill(slot: int, handle: byte, ghost c: Cursor, ghost got: seq<nat>, ghost lost: nat, ghost faults: nat) returns (answer: Round)
      requires Midway(c, got, lost, faults) && current == Some((slot, handle))
      requires cache.nextIndex == |cache.entries| && !cache.hitEof
      modifies this`cache, this`cachedAt, net`open, net`resp, net`faults, net`lost
      ensures cache.nextIndex <= |cache.entries| && Midway(c, got + [|cache.entries| - cache.nextIndex], lost, faults)
      ensures net.faults >= old(net.faults) && (!answer.Refilled? ==> net.faults > old(net.faults))
    {
      hide CacheOk, Track, UsableRange, AllUsable, Ordered, Sendable, NoDrought, AnswersFit, MovesOn, Brought, Reading, GoodCursor, Calm, Net.Valid;
      ghost var c1, lost1, faults1 := Server(), net.lost, net.faults;
      answer := Fetch(slot, handle);
      ReaderFacts();
      MovesOnChain(c, c1, Server(), lost, lost1, net.lost);
      if net.faults == faults { CalmChain(c.dir, net.prompt, lost, lost1, net.lost, starvations, starvations, starvations); }
      ReadingNext(c, c1, Server(), got, |cache.entries| - cache.nextIndex, cache.hitEof,
                  faults1 == faults && lost1 == lost && net.prompt, net.faults == faults && net.lost == lost && net.prompt);
    }

    /** Seven fetches brought nothing: that is taken for the end of the directory. */
    method Starve()
      requires Valid() && Keyed()
      modifies this`starvations
      ensures Valid() && Keyed() && Server() == old(Server()) && starvations == old(starvations) + 1
    {
      starvations := starvations + 1;
    }

    lemma ReaderFacts()
      requires Valid() && Keyed()
      ensures InOrder(Server(), served) && cache.nextIndex <= |cache.entries|
    {
      TrackPrefix(Server(), served, cachedAt[cache.nextIndex..]);
    }

    lemma Drained()
      requires Valid() && Keyed() && cache.nextIndex == |cache.entries| && cache.hitEof
      ensures Server().intact ==> served == AllUsable(Server().dir)
    {
      assert cachedAt[cache.nextIndex..] == [];
      if Server().intact { TrackDone(Server(), served); }
    }

    /** A different handle than the cache was filled from makes the cache empty. */
    method Rekey(slot: int, handle: byte)
      requires Valid() && current == Some((slot, handle))
      modifies this`cache, this`cachedAt
      ensures Valid() && Keyed() && Server() == old(Server())
    {
      hide Track, GoodCursor;
      if !cache.valid || cache.slot != slot || cache.dirHandle != handle {
        FreshDirectory();
        cache := Cache(true, slot, handle, 0, false, []);
        cachedAt := [];
      }
    }

    lemma FreshDirectory()
      requires Valid() && current.Some? && !Keyed()
      ensures Track(Server(), served, [])
    {
      assert GoodCursor(Server());
      TrackFresh(Server().dir);
    }

    /** Hands out the next cached entry. */
    method Serve() returns (e: RawEntry)
      requires Valid() && Keyed() && cache.nextIndex < |cache.entries|
      modifies this`cache, this`served
      ensures Valid() && Keyed() && Server() == old(Server())
      ensures |served| == |old(served)| + 1 && served[..|old(served)|] == old(served)
      ensures served[|old(served)|] < |Server().dir| && e == ToRaw(Server().dir[served[|old(served)|]])
    {
      hide Track;
      CacheServe(Server(), served, cache, cachedAt);
      e := cache.entries[cache.nextIndex];
      served := served + [cachedAt[cache.nextIndex]];
      cache := cache.(nextIndex := cache.nextIndex + 1);
    }

    /** One READDIRX exchange, made when the cache is drained. */
    method Fetch(slot: int, handle: byte) returns (round: Round)
      requires Valid() && Keyed() && current == Some((slot, handle))
      requires cache.nextIndex == |cache.entries|
      modifies this`cache, this`cachedAt, net`open, net`resp, net`faults, net`lost
      ensures Valid() && Keyed()
      ensures MovesOn(old(Server()), Server(), old(net.lost), net.lost)
      ensures net.faults >= old(net.faults) && (!round.Refilled? ==> cache == old(cache) && net.faults > old(net.faults))
      ensures net.faults == old(net.faults) ==> Calm(old(Server()).dir, net.prompt, old(net.lost), net.lost, starvations, starvations)
      ensures round.Refilled? && net.lost == old(net.lost) ==> Brought(old(Server()), Server(), |cache.entries| - cache.nextIndex, cache.hitEof, net.prompt)
    {
      hide Track, UsableRange, Frames, Sendable;
      ghost var c := Server();
      assert cachedAt[cache.nextIndex..] == [];
      var x; ghost var sent;
      x, sent := net.ReadDirX(slot, handle, BATCH);
      ghost var c' := net.open[(slot, handle)];
      assert GoodCursor(c');
      hide GoodCursor;
      if !x.Answered? {
        FetchedNothing(c, served, c', sent);
        return if x.SendFailed? then GaveUp else NoAnswer;
      }
      var rc, batch, respLen := net.Rc(), net.Count(), |net.resp|;
      if rc != TNFS_OK && rc != TNFS_EOF { return GaveUp; }
      ghost var got := |net.Received()|;
      var entries := TakeAnswer(net.resp, batch, c, served, c', got);
      cachedAt := UsableRange(c.dir, c.pos, c.pos + got);
      RowsBehindCache(c, c', served, got, entries, rc == TNFS_EOF);
      cache := cache.(nextIndex := 0, hitEof := rc == TNFS_EOF, entries := entries);
      hide *;
      return Refilled;
    }
  }
}
