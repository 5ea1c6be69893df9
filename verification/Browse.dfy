/**
 * The floppy browser's session over TNFS (sidetnfs_floppy_browse.c): BROWSE_OPEN, CHANGE_DIR, and
 * the page walk of GET_PAGE, which may stop after any round and is resumed by asking again.
 */
module Browse {
  import opened Words
  import opened Names
  import Tnfs
  import opened RawDir
  import opened Listing
  import opened Paths

  const FLOPPY_SLOT := 9
  const NAME_LEN := 256
  const ROUNDS_PER_CALL := 2000
  const MAX_TOTAL_ROUNDS := 100000

  datatype Status =
    | Ok | SourceNotConfigured | TnfsNotConnected | TnfsHostUnreachable | DirMissing | AccessDenied
    | PathTooLong | EndOfListing | StaleGeneration | BackendError | NotOpen | InProgress

  datatype PageResult = PageResult(status: Status, generation: dword, count: nat, hasPrev: bool, hasNext: bool)

  /** How far a page walk has come: the counters among the session's `walk_*` fields. */
  datatype Walk = Walk(filesPhase: bool, dirsTotal: nat, pageIndex: dword, matched: nat, collected: nat)

  /** The number of rows before the page, as the firmware's 32-bit product computes it. */
  function Skip(pageIndex: dword): nat {
    pageIndex * PAGE_ENTRIES % TWO_TO_32
  }

  function OpenStatus(r: OpenResult): Status {
    match r
    case DirOk(_) => Ok
    case DirNotFound => DirMissing
    case DirAccessDenied => AccessDenied
    case DirPathTooLong => PathTooLong
    case DirError => BackendError
  }

  /** How one round of the walk ends. */
  datatype Turn = Continue | PageFull | Completed | OpenFailed(why: Status) | Broken

  /**
   * The walk gives up on this page: one of its two passes would have to meet more than 100000 rows.
   * It meets no row after the page and one, and the second pass starts where the directories end.
   */
  ghost predicate TooManyRows(dir: seq<Entry>, skip: nat) {
    var rows, dirs, files := skip + PAGE_ENTRIES, Population(dir, true), Population(dir, false);
    || Least(dirs, rows) > 100000
    || Least(files, if rows > dirs then rows - dirs else 0) > 100000
  }

  function Least(a: nat, b: nat): nat {
    if a < b then a else b
  }

  /** The page is deep enough, and a kind numerous enough, for the walk to give up after losses. */
  ghost predicate MayBeTooMany(dir: seq<Entry>, skip: nat) {
    && skip + PAGE_ENTRIES > 100000
    && (Population(dir, true) > 100000 || Population(dir, false) > 100000)
  }

  /** Why a walk may give up though no exchange failed: exactly for `TooManyRows` if it lost nothing. */
  ghost predicate Overrun(dir: seq<Entry>, skip: nat, spoiled: bool) {
    MayBeTooMany(dir, skip) && (spoiled || TooManyRows(dir, skip))
  }

  // -- The walk's invariant ----------------------------------------------------------------------

  /**
   * `cur` has been read in the current pass and `dirsMet` holds the directories of a finished first
   * pass; `seen` are the rows met so far, skipped ones included.
   */
  ghost predicate Passes(dir: seq<Entry>, w: Walk, dirsMet: seq<nat>, cur: seq<nat>, seen: seq<nat>, spoiled: bool) {
    && Ordered(dir, cur, 0, |dir|)
    && seen == dirsMet + Kind(dir, cur, !w.filesPhase)
    && w.dirsTotal == |dirsMet| && |dirsMet| + w.matched == |seen|
    && (!w.filesPhase ==> dirsMet == [])
    && Ordered(dir, dirsMet, 0, |dir|) && OfKind(dir, dirsMet, true)
    && (!spoiled ==> cur <= AllUsable(dir))
    && (!spoiled && w.filesPhase ==> InDir(dir, AllUsable(dir)) && dirsMet == Kind(dir, AllUsable(dir), true))
  }

  ghost predicate Progress(dir: seq<Entry>, w: Walk, region: seq<RawEntry>,
                           dirsMet: seq<nat>, cur: seq<nat>, seen: seq<nat>, spoiled: bool) {
    && Passes(dir, w, dirsMet, cur, seen, spoiled)
    && (w.filesPhase ==> w.dirsTotal <= MAX_TOTAL_ROUNDS)
    && InDir(dir, seen)
    && PageOf(dir, seen, Skip(w.pageIndex), region, w.collected, false)
  }

  /** What a finished page shows. */
  ghost predicate Shown(dir: seq<Entry>, pageIndex: dword, region: seq<RawEntry>, count: nat, hasNext: bool,
                        seen: seq<nat>, spoiled: bool) {
    && Selection(dir, seen)
    && PageOf(dir, seen, Skip(pageIndex), region, count, hasNext)
    && (!spoiled ==> InDir(dir, Catalogue(dir)) &&
                     PageOf(dir, Catalogue(dir), Skip(pageIndex), region, count, hasNext) &&
                     !TooManyRows(dir, Skip(pageIndex)))
  }

  lemma PassesSelect(dir: seq<Entry>, w: Walk, dirsMet: seq<nat>, cur: seq<nat>, seen: seq<nat>, spoiled: bool)
    requires Passes(dir, w, dirsMet, cur, seen, spoiled)
    ensures Selection(dir, seen)
  {
    KindIsOrdered(dir, cur, |dir|, !w.filesPhase);
    var k := Kind(dir, cur, !w.filesPhase);
    if w.filesPhase {
      DirsThenFiles(dir, dirsMet, k);
    } else {
      DirsThenFiles(dir, k, []);
      assert k + [] == seen == [] + k;
    }
  }

  /** In an unspoiled walk the rows met so far are a prefix of the catalogue. */
  lemma PassesPrefix(dir: seq<Entry>, w: Walk, dirsMet: seq<nat>, cur: seq<nat>, seen: seq<nat>)
    requires Passes(dir, w, dirsMet, cur, seen, false)
    ensures InDir(dir, AllUsable(dir)) && seen <= Catalogue(dir)
    ensures w.filesPhase && cur == AllUsable(dir) ==> seen == Catalogue(dir)
  {
    UsableRangeOrdered(dir, 0, |dir|);
    KindOfPrefix(dir, cur, AllUsable(dir), !w.filesPhase);
    hide AllUsable, Ordered, Kind;
    if !w.filesPhase {
      assert seen == Kind(dir, cur, true);
    }
  }

  lemma PageOfPrefix(dir: seq<Entry>, a: seq<nat>, list: seq<nat>, skip: nat, region: seq<RawEntry>, count: nat)
    requires a <= list && InDir(dir, list)
    requires PageOf(dir, a, skip, region, count, true)
    ensures PageOf(dir, list, skip, region, count, true)
  {
  }

  /** Reading one more entry in the current pass. */
  lemma PassesRead(dir: seq<Entry>, w: Walk, dirsMet: seq<nat>, cur: seq<nat>, seen: seq<nat>, cur': seq<nat>,
                   p: nat, spoiled: bool, spoiled': bool)
    requires Passes(dir, w, dirsMet, cur, seen, spoiled) && (spoiled ==> spoiled')
    requires cur' == cur + [p] && Ordered(dir, cur', 0, |dir|) && (!spoiled' ==> cur' <= AllUsable(dir))
    ensures p < |dir|
    ensures dir[p].Directory() == w.filesPhase ==> Passes(dir, w, dirsMet, cur', seen, spoiled')
    ensures dir[p].Directory() != w.filesPhase ==>
              Passes(dir, w.(matched := w.matched + 1), dirsMet, cur', seen + [p], spoiled')
  {
    assert cur'[|cur|] == p;
    KindExtend(dir, cur, p, !w.filesPhase);
    hide Ordered, Kind, AllUsable;
    Associative(dirsMet, Kind(dir, cur, !w.filesPhase), [p]);
  }

  /** The first pass is over: what it met becomes `dirsMet`, and the second pass starts. */
  lemma PassesTurn(dir: seq<Entry>, w: Walk, cur: seq<nat>, seen: seq<nat>, spoiled: bool, spoiled': bool)
    requires Passes(dir, w, [], cur, seen, spoiled) && !w.filesPhase && (spoiled ==> spoiled')
    requires !spoiled' ==> cur == AllUsable(dir)
    ensures Passes(dir, w.(filesPhase := true, dirsTotal := w.matched, matched := 0),
                   seen, [], seen, spoiled')
  {
    KindIsOrdered(dir, cur, |dir|, true);
    UsableRangeOrdered(dir, 0, |dir|);
    assert seen == [] + Kind(dir, cur, true) == Kind(dir, cur, true);
    assert seen + [] == seen;
  }

  lemma RowSkipped(dir: seq<Entry>, seen: seq<nat>, skip: nat, region: seq<RawEntry>, count: nat, p: nat)
    requires InDir(dir, seen) && p < |dir| && |seen| < skip && PageOf(dir, seen, skip, region, count, false)
    ensures InDir(dir, seen + [p]) && PageOf(dir, seen + [p], skip, region, count, false)
  {
  }

  lemma RowTaken(dir: seq<Entry>, seen: seq<nat>, skip: nat, region: seq<RawEntry>, count: nat, p: nat)
    requires InDir(dir, seen) && p < |dir| && |seen| >= skip && PageOf(dir, seen, skip, region, count, false)
    ensures InDir(dir, seen + [p])
    ensures count < PAGE_ENTRIES ==>
              PageOf(dir, seen + [p], skip, region[count := ToRaw(dir[p])], count + 1, false)
    ensures count >= PAGE_ENTRIES ==> PageOf(dir, seen + [p], skip, region, count, true)
  {
  }

  function BlankRegion(): seq<RawEntry> {
    seq(PAGE_ENTRIES, _ => BLANK)
  }

  lemma NothingMet(dir: seq<Entry>, pageIndex: dword)
    ensures Progress(dir, Walk(false, 0, pageIndex, 0, 0), BlankRegion(), [], [], [], false)
  {
    hide UsableRange, Usable, Skip;
  }

  /** The test on the count of one pass strikes. */
  lemma GivesUp(dir: seq<Entry>, w: Walk, region: seq<RawEntry>, dirsMet: seq<nat>, cur: seq<nat>, seen: seq<nat>, spoiled: bool)
    requires Progress(dir, w, region, dirsMet, cur, seen, spoiled) && w.matched > MAX_TOTAL_ROUNDS
    ensures Overrun(dir, Skip(w.pageIndex), spoiled)
  {
    KindWithinPopulation(dir, cur, !w.filesPhase);
    hide Ordered, Kind, AllUsable, Skip;
  }

  /** The walk has come to its end and the test has not struck. */
  lemma WithinReach(dir: seq<Entry>, w: Walk, dirsMet: seq<nat>, cur: seq<nat>, seen: seq<nat>, skip: nat)
    requires Passes(dir, w, dirsMet, cur, seen, false)
    requires w.matched <= MAX_TOTAL_ROUNDS && (w.filesPhase ==> w.dirsTotal <= MAX_TOTAL_ROUNDS)
    requires |seen| == skip + PAGE_ENTRIES || (w.filesPhase && cur == AllUsable(dir))
    ensures !TooManyRows(dir, skip)
  {
    hide Ordered, Kind, AllUsable;
  }

  /** The end of a pass, for the walk as a whole. */
  lemma PassDone(dir: seq<Entry>, w: Walk, region: seq<RawEntry>, dirsMet: seq<nat>, cur: seq<nat>, seen: seq<nat>,
                 spoiled: bool, spoiled': bool)
    requires Progress(dir, w, region, dirsMet, cur, seen, spoiled) && (spoiled ==> spoiled') && w.matched <= MAX_TOTAL_ROUNDS
    requires !spoiled' ==> cur == AllUsable(dir)
    ensures w.filesPhase ==> Shown(dir, w.pageIndex, region, w.collected, false, seen, spoiled')
    ensures !w.filesPhase ==>
              Progress(dir, w.(filesPhase := true, dirsTotal := w.matched, matched := 0), region, seen, [], seen, spoiled')
  {
    if w.filesPhase {
      PassesSelect(dir, w, dirsMet, cur, seen, spoiled);
      if !spoiled' {
        PassesPrefix(dir, w, dirsMet, cur, seen);
        WithinReach(dir, w, dirsMet, cur, seen, Skip(w.pageIndex));
      }
      hide TooManyRows;
    } else {
      PassesTurn(dir, w, cur, seen, spoiled, spoiled');
    }
  }

  lemma WrongKind(dir: seq<Entry>, w: Walk, region: seq<RawEntry>, dirsMet: seq<nat>, cur: seq<nat>, seen: seq<nat>,
                  p: nat, spoiled: bool, spoiled': bool)
    requires Progress(dir, w, region, dirsMet, cur, seen, spoiled) && (spoiled ==> spoiled')
    requires Ordered(dir, cur + [p], 0, |dir|) && (!spoiled' ==> cur + [p] <= AllUsable(dir))
    requires p < |dir| && dir[p].Directory() == w.filesPhase
    ensures Progress(dir, w, region, dirsMet, cur + [p], seen, spoiled')
  {
    PassesRead(dir, w, dirsMet, cur, seen, cur + [p], p, spoiled, spoiled');
  }

  lemma FullPage(dir: seq<Entry>, w: Walk, region: seq<RawEntry>, dirsMet: seq<nat>, cur: seq<nat>, seen: seq<nat>)
    requires Progress(dir, w, region, dirsMet, cur, seen, false) && w.matched <= MAX_TOTAL_ROUNDS
    ensures |seen| >= Skip(w.pageIndex) && w.collected >= PAGE_ENTRIES ==> !TooManyRows(dir, Skip(w.pageIndex))
  {
    hide Passes, TooManyRows, Skip, ToRaw;
    if |seen| >= Skip(w.pageIndex) && w.collected >= PAGE_ENTRIES { WithinReach(dir, w, dirsMet, cur, seen, Skip(w.pageIndex)); }
  }

  /** A row of the kind this pass is after: skipped, written to the region, or one too many. */
  lemma RightKind(dir: seq<Entry>, w: Walk, region: seq<RawEntry>, dirsMet: seq<nat>, cur: seq<nat>, seen: seq<nat>,
                  p: nat, spoiled: bool, spoiled': bool)
    requires Progress(dir, w, region, dirsMet, cur, seen, spoiled) && (spoiled ==> spoiled')
    requires Ordered(dir, cur + [p], 0, |dir|) && (!spoiled' ==> cur + [p] <= AllUsable(dir))
    requires p < |dir| && dir[p].Directory() != w.filesPhase && w.matched <= MAX_TOTAL_ROUNDS
    ensures w.dirsTotal + w.matched == |seen| && |region| == PAGE_ENTRIES && (!w.filesPhase ==> w.dirsTotal == 0)
    ensures |seen| < Skip(w.pageIndex) ==>
              Progress(dir, w.(matched := w.matched + 1), region, dirsMet, cur + [p], seen + [p], spoiled')
    ensures |seen| >= Skip(w.pageIndex) && w.collected < PAGE_ENTRIES ==>
              Progress(dir, w.(matched := w.matched + 1, collected := w.collected + 1),
                       region[w.collected := ToRaw(dir[p])], dirsMet, cur + [p], seen + [p], spoiled')
    ensures |seen| >= Skip(w.pageIndex) && w.collected >= PAGE_ENTRIES ==>
              Shown(dir, w.pageIndex, region, w.collected, true, seen + [p], spoiled')
  {
    hide *;
    RowFacts(dir, w, region, dirsMet, cur, seen, spoiled);
    if !spoiled' { FullPage(dir, w, region, dirsMet, cur, seen); }
    PassesRead(dir, w, dirsMet, cur, seen, cur + [p], p, spoiled, spoiled');
    RowMet(dir, w.(matched := w.matched + 1), region, dirsMet, cur + [p], seen, p, spoiled');
  }

  lemma RowMet(dir: seq<Entry>, w: Walk, region: seq<RawEntry>, dirsMet: seq<nat>, cur: seq<nat>, seen: seq<nat>, p: nat, spoiled: bool)
    requires Passes(dir, w, dirsMet, cur, seen + [p], spoiled) && (w.filesPhase ==> w.dirsTotal <= MAX_TOTAL_ROUNDS)
    requires p < |dir| && InDir(dir, seen) && PageOf(dir, seen, Skip(w.pageIndex), region, w.collected, false) && |region| == PAGE_ENTRIES
    requires !spoiled && |seen| >= Skip(w.pageIndex) && w.collected >= PAGE_ENTRIES ==> !TooManyRows(dir, Skip(w.pageIndex))
    ensures |seen| < Skip(w.pageIndex) ==> Progress(dir, w, region, dirsMet, cur, seen + [p], spoiled)
    ensures |seen| >= Skip(w.pageIndex) && w.collected < PAGE_ENTRIES ==>
              Progress(dir, w.(collected := w.collected + 1), region[w.collected := ToRaw(dir[p])], dirsMet, cur, seen + [p], spoiled)
    ensures |seen| >= Skip(w.pageIndex) && w.collected >= PAGE_ENTRIES ==>
              Shown(dir, w.pageIndex, region, w.collected, true, seen + [p], spoiled)
  {
    hide *;
    var skip := Skip(w.pageIndex);
    if |seen| < skip {
      RowSkipped(dir, seen, skip, region, w.collected, p);
      MakeProgress(dir, w, w.collected, region, dirsMet, cur, seen + [p], spoiled);
    } else {
      RowTaken(dir, seen, skip, region, w.collected, p);
      if w.collected >= PAGE_ENTRIES {
        OneTooMany(dir, w, region, dirsMet, cur, seen + [p], spoiled);
      } else {
        MakeProgress(dir, w, w.collected + 1, region[w.collected := ToRaw(dir[p])], dirsMet, cur, seen + [p], spoiled);
      }
    }
  }

  lemma RowFacts(dir: seq<Entry>, w: Walk, region: seq<RawEntry>, dirsMet: seq<nat>, cur: seq<nat>, seen: seq<nat>, spoiled: bool)
    requires Progress(dir, w, region, dirsMet, cur, seen, spoiled)
    ensures Passes(dir, w, dirsMet, cur, seen, spoiled) && (w.filesPhase ==> w.dirsTotal <= MAX_TOTAL_ROUNDS)
    ensures InDir(dir, seen) && PageOf(dir, seen, Skip(w.pageIndex), region, w.collected, false)
    ensures w.dirsTotal + w.matched == |seen| && |region| == PAGE_ENTRIES && (!w.filesPhase ==> w.dirsTotal == 0)
  {
    hide Skip, ToRaw, Ordered, AllUsable;
  }

  lemma MakeProgress(dir: seq<Entry>, w: Walk, collected: nat, region: seq<RawEntry>, dirsMet: seq<nat>, cur: seq<nat>, seen: seq<nat>, spoiled: bool)
    requires Passes(dir, w, dirsMet, cur, seen, spoiled) && (w.filesPhase ==> w.dirsTotal <= MAX_TOTAL_ROUNDS)
    requires InDir(dir, seen) && PageOf(dir, seen, Skip(w.pageIndex), region, collected, false)
    ensures Progress(dir, w.(collected := collected), region, dirsMet, cur, seen, spoiled)
  {
    hide PageOf, Skip, Ordered, AllUsable;
  }

  /** The page is full and one more row has been met. */
  lemma OneTooMany(dir: seq<Entry>, w: Walk, region: seq<RawEntry>, dirsMet: seq<nat>, cur: seq<nat>, seen: seq<nat>, spoiled: bool)
    requires Passes(dir, w, dirsMet, cur, seen, spoiled)
    requires InDir(dir, seen) && PageOf(dir, seen, Skip(w.pageIndex), region, w.collected, true)
    requires !spoiled ==> !TooManyRows(dir, Skip(w.pageIndex))
    ensures Shown(dir, w.pageIndex, region, w.collected, true, seen, spoiled)
  {
    hide Passes, PageOf, Catalogue, Skip, TooManyRows;
    PassesSelect(dir, w, dirsMet, cur, seen, spoiled);
    if !spoiled {
      PassesPrefix(dir, w, dirsMet, cur, seen);
      CatalogueInDir(dir);
      PageOfPrefix(dir, seen, Catalogue(dir), Skip(w.pageIndex), region, w.collected);
    }
  }

  lemma CatalogueInDir(dir: seq<Entry>)
    ensures InDir(dir, Catalogue(dir))
  {
    CatalogueSelects(dir);
  }

  /** A finished page, stated of the bytes the server sent. */
  lemma ShownInBits(dir: seq<Entry>, pageIndex: dword, region: seq<RawEntry>, count: nat, hasNext: bool, seen: seq<nat>, spoiled: bool)
    requires Shown(dir, pageIndex, region, count, hasNext, seen, spoiled)
    ensures PageInBits(dir, pageIndex, region, count, hasNext, !spoiled)
  {
    hide Selection, PageOf, Catalogue, Showable, ListInBits, RowsInBits, TooManyRows;
    SkipByNumber(pageIndex);
    if spoiled {
      PageOfInBits(dir, seen, Skip(pageIndex), region, count, hasNext);
    } else {
      CatalogueIsShown(dir, pageIndex, region, count, hasNext);
    }
  }

  lemma CatalogueIsShown(dir: seq<Entry>, pageIndex: dword, region: seq<RawEntry>, count: nat, hasNext: bool)
    requires InDir(dir, Catalogue(dir)) && PageOf(dir, Catalogue(dir), Skip(pageIndex), region, count, hasNext)
    ensures PageInBits(dir, pageIndex, region, count, hasNext, true)
  {
    hide Selection, PageOf, Catalogue, Showable, ListInBits, RowsInBits;
    SkipByNumber(pageIndex);
    CatalogueInBits(dir);
    PageOfInBits(dir, Catalogue(dir), Skip(pageIndex), region, count, hasNext);
  }

  lemma SkipByNumber(pageIndex: dword)
    ensures Skip(pageIndex) == 15 * pageIndex % 0x1_0000_0000
  {
  }

  const ROOT: seq<byte> := [SLASH]

  lemma RootIsCanonical()
    ensures Canonical(ROOT)
  {
    assert Components(ROOT) == Components([]) == [];
  }

  /** The directory a session is asked to start in. */
  function StartDir(start: Option<seq<byte>>): seq<byte> {
    if start.Some? && 0 < |start.value| < CWD_LEN && |Render(Target(start.value))| < CWD_LEN
    then Render(Target(start.value)) else ROOT
  }

  /** How many rounds a call takes before its time is up. */
  function RoundsOf(budget: nat): nat {
    if budget < ROUNDS_PER_CALL then budget else ROUNDS_PER_CALL
  }

  lemma RoundsAre(budget: nat, rounds: nat)
    requires rounds <= budget && rounds <= ROUNDS_PER_CALL && (rounds == budget || rounds == ROUNDS_PER_CALL)
    ensures rounds == RoundsOf(budget)
  {
  }

  lemma SomeRounds(budget: nat)
    requires budget > 0
    ensures RoundsOf(budget) >= 1
  {
  }

  /** How mounting the source's server went. */
  datatype MountOutcome = Mounted | NoConnection | NoAnswer

  // -- The session -------------------------------------------------------------------------------

  class Browser {
    const reader: RawReader
    var isOpen: bool
    var cwd: seq<byte>
    var generation: dword
    var nextGeneration: dword
    var walkActive: bool
    var walkGeneration: dword
    var walk: Walk
    var walkHandle: byte       // only meaningful while walkHandleOpen
    var walkHandleOpen: bool
    // The page region the Atari reads.
    var region: seq<RawEntry>

    // How many generations have been handed out; `nextGeneration` is that number in 32 bits.
    ghost var issued: nat
    // Rows met by the walk (see Passes), and whether an answer was lost or cut, or the reader starved.
    ghost var dirsMet: seq<nat>
    ghost var seen: seq<nat>
    ghost var spoiled: bool

    ghost function Dir(): seq<Entry>
      reads this
    {
      if (FLOPPY_SLOT, cwd) in reader.net.dirs then reader.net.dirs[(FLOPPY_SLOT, cwd)] else []
    }

    /** A directory that opens, as long as nothing goes wrong. */
    predicate Openable(path: seq<byte>) {
      |path| < Tnfs.MAX_FOLDER_LENGTH && (FLOPPY_SLOT, path) in reader.net.dirs
    }

    predicate Home(path: seq<byte>) {
      Canonical(path) && |path| < CWD_LEN && Openable(path)
    }

    /** Positions read in the current pass. */
    ghost function Current(): seq<nat>
      reads this, reader
    {
      if walkHandleOpen then reader.served else []
    }

    /** The only directory handle between calls is the parked walk's. */
    ghost predicate Ledger()
      reads this, reader, reader.net
    {
      && reader.Valid()
      && (walkHandleOpen ==> walkActive)
      && reader.unclosed == if walkHandleOpen then {(FLOPPY_SLOT, walkHandle)} else {}
    }

    ghost predicate WalkValid()
      reads this, reader, reader.net
      requires reader.Valid()
    {
      && isOpen && walkGeneration == generation
      && (walkHandleOpen ==>
            && reader.current == Some((FLOPPY_SLOT, walkHandle))
            && reader.Server().dir == Dir()
            && (!spoiled ==> reader.Server().intact))
      && Progress(Dir(), walk, region, dirsMet, Current(), seen, spoiled)
    }

    ghost predicate Valid()
      reads this, reader, reader.net
    {
      && Ledger()
      && (isOpen ==> Home(cwd))
      && nextGeneration == (1 + issued) % TWO_TO_32
      && (isOpen ==> issued > 0 && generation == issued % TWO_TO_32)
      && (walkActive ==> WalkValid())
    }

    constructor (net: Tnfs.Net)
      requires net.Valid() && net.open == map[]
      ensures Valid() && fresh(reader) && reader.net == net && !isOpen && !walkActive
    {
      reader := new RawReader(net);
      isOpen, cwd, generation, nextGeneration := false, [], 0, 1;
      walkActive, walkGeneration, walk, walkHandle, walkHandleOpen := false, 0, Walk(false, 0, 0, 0, 0), 0, false;
      region := BlankRegion();
      issued, dirsMet, seen, spoiled := 0, [], [], false;
    }

    /** Drops a parked walk, closing its handle. */
    method AbandonWalk()
      requires Ledger()
      modifies this`walkActive, this`walkHandleOpen, reader`current, reader`unclosed, reader.net`open, reader.net`resp, reader.net`faults
      ensures Ledger() && !walkActive && !walkHandleOpen && reader.net.faults >= old(reader.net.faults)
    {
      if walkActive && walkHandleOpen {
        reader.CloseDir(FLOPPY_SLOT, walkHandle);
      }
      walkActive, walkHandleOpen := false, false;
    }

    /**
     * How many rounds the walk can still take: the passes not yet begun, and the entries of the
     * current pass not yet delivered.
     */
    ghost function Remaining(): int
      reads this, reader
    {
      var n := |Dir()|;
      (if walk.filesPhase then 0 else n + 2) + (if walkHandleOpen then n - |reader.served| else n + 1)
    }

    /** Opens the directory for the pass that is about to start. */
    method OpenPass() returns (r: OpenResult)
      requires Valid() && walkActive && !walkHandleOpen
      modifies this`walkActive, this`walkHandle, this`walkHandleOpen
      modifies reader`cache, reader`current, reader`served, reader`unclosed, reader.net`open, reader.net`resp, reader.net`faults
      ensures Valid() && Remaining() <= old(Remaining())
      ensures r.DirOk? <==> walkActive
      ensures r.DirOk? <==> walkHandleOpen
      ensures reader.net.faults >= old(reader.net.faults) && (!r.DirOk? ==> reader.net.faults > old(reader.net.faults))
    {
      hide Progress, Canonical;
      r := reader.OpenDir(FLOPPY_SLOT, cwd);
      if r.DirOk? {
        walkHandle, walkHandleOpen := r.handle, true;
      } else {
        walkActive := false;
      }
    }

    /** One round of the walk loop. */
    method WalkTurn() returns (turn: Turn)
      requires Valid() && walkActive
      modifies this`walkActive, this`walkHandle, this`walkHandleOpen, this`walk, this`region
      modifies this`dirsMet, this`seen, this`spoiled, reader, reader.net`open, reader.net`resp, reader.net`faults, reader.net`lost
      ensures Ledger() && walk.pageIndex == old(walk.pageIndex)
      ensures turn.OpenFailed? <==> !walkActive
      ensures SpoiledOnlyBy(old(spoiled), old(reader.net.lost), old(reader.starvations), old(reader.net.faults))
      ensures turn.OpenFailed? ==> turn.why in {DirMissing, AccessDenied, PathTooLong, BackendError}
      ensures NoWorse(turn, old(reader.net.faults))
      ensures turn.Continue? || turn.OpenFailed? ==> Valid()
      ensures turn.Continue? ==> Remaining() < old(Remaining())
      ensures turn.PageFull? || turn.Completed? ==>
                Shown(Dir(), walk.pageIndex, region, walk.collected, turn.PageFull?, seen, spoiled)
    {
      hide RawReader.Valid, Tnfs.Net.Valid, Progress, Canonical, Ordered, AllUsable, Starved, Shown;
      if !walkHandleOpen {
        var o := OpenPass();
        if !o.DirOk? { return OpenFailed(OpenStatus(o)); }
      }
      if walk.matched > MAX_TOTAL_ROUNDS {
        GivesUp(Dir(), walk, region, dirsMet, Current(), seen, spoiled);
        return Broken;
      }
      turn := ReadTurn();
    }

    /** The round once a handle is open: read one entry, and count, write or stop. */
    method ReadTurn() returns (turn: Turn)
      requires Valid() && walkActive && walkHandleOpen && walk.matched <= MAX_TOTAL_ROUNDS
      modifies this`walkHandleOpen, this`walk, this`region, this`dirsMet, this`seen, this`spoiled
      modifies reader, reader.net`open, reader.net`resp, reader.net`faults, reader.net`lost
      ensures Ledger() && walk.pageIndex == old(walk.pageIndex)
      ensures turn.Continue? || turn.PageFull? || turn.Completed? || turn.Broken?
      ensures NoWorse(turn, old(reader.net.faults))
      ensures SpoiledOnlyBy(old(spoiled), old(reader.net.lost), old(reader.starvations), old(reader.net.faults))
      ensures turn.Continue? ==> Valid() && Remaining() < old(Remaining())
      ensures turn.PageFull? || turn.Completed? ==>
                Shown(Dir(), walk.pageIndex, region, walk.collected, turn.PageFull?, seen, spoiled)
    {
      hide RawReader.Valid, Tnfs.Net.Valid, Progress, Home, Ordered, AllUsable, Shown, SpoiledOnlyBy;
      ghost var spoiledBefore, readBefore := spoiled, reader.served;
      ghost var lost, starvations, faults := reader.net.lost, reader.starvations, reader.net.faults;
      var r := ReadRow();
      SpoiledFacts(spoiledBefore, lost, starvations, faults);
      match r {
        case Failed => turn := Broken;
        case EndOfDirectory =>
          turn := EndPass(spoiledBefore);
        case Found(entry) =>
          turn := MeetRow(entry, readBefore, spoiledBefore);
      }
      SpoiledFacts(spoiledBefore, lost, starvations, faults);
    }

    /** The read itself: what the row means for the walk is still to be decided. */
    method ReadRow() returns (r: ReadResult)
      requires Valid() && walkActive && walkHandleOpen && walk.matched <= MAX_TOTAL_ROUNDS
      modifies this`spoiled, reader, reader.net`open, reader.net`resp, reader.net`faults, reader.net`lost
      ensures Mid(old(reader.served), old(spoiled))
      ensures reader.net.faults >= old(reader.net.faults) && (r.Failed? ==> reader.net.faults > old(reader.net.faults))
      ensures SpoiledOnlyBy(old(spoiled), old(reader.net.lost), old(reader.starvations), old(reader.net.faults))
      ensures Gives(r, Dir(), old(reader.served), reader.served, !spoiled)
    {
      hide RawReader.Valid, Tnfs.Net.Valid, Progress, Home, Ordered, AllUsable, Starved, ToRaw;
      ghost var got;
      r, got := reader.ReadDir(FLOPPY_SLOT, walkHandle);
      spoiled := spoiled || !reader.Server().intact || Starved(got);
    }

    /** A round fails only if an exchange failed, or the walk has met more rows than it may. */
    ghost predicate NoWorse(turn: Turn, faults: nat)
      reads this, reader, reader.net
    {
      && faults <= reader.net.faults
      && (turn.OpenFailed? ==> faults < reader.net.faults)
      && (turn.Broken? ==> faults < reader.net.faults || Overrun(Dir(), Skip(walk.pageIndex), spoiled))
    }

    /** A walk is spoiled by a loss or a starved read, and by nothing else; without a fault neither comes unprovoked. */
    ghost predicate SpoiledOnlyBy(before: bool, lost: nat, starvations: nat, faults: nat)
      reads this, reader, reader.net
    {
      && lost <= reader.net.lost && starvations <= reader.starvations
      && (spoiled ==> before || lost < reader.net.lost || starvations < reader.starvations)
      && (reader.net.faults == faults ==> Calm(Dir(), reader.net.prompt, lost, reader.net.lost, starvations, reader.starvations))
    }

    /** What holds in the middle of a turn, when an entry has been read but not yet counted. */
    ghost predicate Mid(readBefore: seq<nat>, spoiledBefore: bool)
      reads this, reader, reader.net
    {
      && Ledger() && walkActive && walkHandleOpen && walk.matched <= MAX_TOTAL_ROUNDS
      && isOpen && walkGeneration == generation && Home(cwd)
      && nextGeneration == (1 + issued) % TWO_TO_32 && issued > 0 && generation == issued % TWO_TO_32
      && reader.current == Some((FLOPPY_SLOT, walkHandle))
      && reader.Server().dir == Dir()
      && (!spoiled ==> reader.Server().intact)
      && (spoiledBefore ==> spoiled)
      && Progress(Dir(), walk, region, dirsMet, readBefore, seen, spoiledBefore)
      && Ordered(Dir(), reader.served, 0, |Dir()|)
      && (!spoiled ==> reader.served <= AllUsable(Dir()))
    }

    method EndPass(ghost spoiledBefore: bool) returns (turn: Turn)
      requires Mid(reader.served, spoiledBefore)
      requires !spoiled ==> reader.served == AllUsable(Dir())
      modifies this`walkHandleOpen, this`walk, this`dirsMet, this`seen, reader`current, reader`unclosed, reader.net`open, reader.net`resp, reader.net`faults
      ensures Ledger() && walk.pageIndex == old(walk.pageIndex) && reader.net.faults >= old(reader.net.faults)
      ensures turn.Completed? || turn.Continue?
      ensures turn.Continue? ==> Valid() && Remaining() < old(Remaining())
      ensures turn.Completed? ==>
                Shown(Dir(), walk.pageIndex, region, walk.collected, false, seen, spoiled)
    {
      hide RawReader.Valid, Tnfs.Net.Valid, Progress, Canonical, Ordered, AllUsable, Shown, Passes;
      ghost var dir, cur := Dir(), reader.served;
      PassDone(dir, walk, region, dirsMet, cur, seen, spoiledBefore, spoiled);
      OrderedLength(dir, cur, |dir|);
      reader.CloseDir(FLOPPY_SLOT, walkHandle);
      walkHandleOpen := false;
      if walk.filesPhase { return Completed; }
      walk := walk.(filesPhase := true, dirsTotal := walk.matched, matched := 0);
      dirsMet := seen;
      return Continue;
    }

    method MeetRow(entry: RawEntry, ghost readBefore: seq<nat>, ghost spoiledBefore: bool) returns (turn: Turn)
      requires Mid(readBefore, spoiledBefore)
      requires |reader.served| == |readBefore| + 1 && reader.served[..|readBefore|] == readBefore
      requires reader.served[|readBefore|] < |Dir()| && entry == ToRaw(Dir()[reader.served[|readBefore|]])
      modifies this`walk, this`region, this`seen
      ensures Ledger() && walk.pageIndex == old(walk.pageIndex) && walk.filesPhase == old(walk.filesPhase)
      ensures turn.Continue? || turn.PageFull?
      ensures turn.Continue? ==> Valid()
      ensures turn.PageFull? ==> Shown(Dir(), walk.pageIndex, region, walk.collected, true, seen, spoiled)
    {
      hide RawReader.Valid, Tnfs.Net.Valid, Progress, Canonical, Ordered, AllUsable, Shown, Passes;
      ghost var dir, p := Dir(), reader.served[|readBefore|];
      assert reader.served == readBefore + [p];
      var wantDirs := !walk.filesPhase;
      if entry.isDir != wantDirs {
        WrongKind(dir, walk, region, dirsMet, readBefore, seen, p, spoiledBefore, spoiled);
        return Continue;
      }
      RightKind(dir, walk, region, dirsMet, readBefore, seen, p, spoiledBefore, spoiled);
      var skip := walk.pageIndex * PAGE_ENTRIES % TWO_TO_32;
      var phaseSkip := if walk.filesPhase then (if skip > walk.dirsTotal then skip - walk.dirsTotal else 0) else skip;
      seen := seen + [p];
      if walk.matched < phaseSkip {
        walk := walk.(matched := walk.matched + 1);
        return Continue;
      }
      if walk.collected < PAGE_ENTRIES {
        region := region[walk.collected := entry];
        walk := walk.(collected := walk.collected + 1, matched := walk.matched + 1);
        return Continue;
      }
      return PageFull;
    }

    lemma RemainingIsBounded()
      requires Valid() && walkActive
      ensures 0 <= Remaining() <= 2 * |Dir()| + 3
    {
      if walkHandleOpen { OrderedLength(Dir(), reader.served, |Dir()|); }
    }

    /** A new walk: the page region is cleared once, and nothing has been met. */
    method BeginWalk(pageIndex: dword)
      requires Valid() && isOpen && !walkActive
      modifies this`walkActive, this`walkGeneration, this`walk, this`region, this`dirsMet, this`seen, this`spoiled
      ensures Valid() && walkActive && walkGeneration == generation && walk.pageIndex == pageIndex
      ensures !spoiled && Remaining() == 2 * |Dir()| + 3
    {
      NothingMet(Dir(), pageIndex);
      hide RawReader.Valid, Tnfs.Net.Valid, Home, Progress, BlankRegion;
      region := BlankRegion();
      walkActive, walkGeneration, walk := true, generation, Walk(false, 0, pageIndex, 0, 0);
      dirsMet, seen, spoiled := [], [], false;
    }

    /** Goes on with the parked walk if it is for the same page; otherwise drops it and starts anew. */
    method TakeUpWalk(pageIndex: dword, ghost resumes: bool)
      requires Valid() && isOpen && resumes == Resumes(walkActive, walkGeneration, walk.pageIndex, generation, pageIndex)
      modifies this`walkActive, this`walkGeneration, this`walk, this`walkHandle, this`walkHandleOpen
      modifies this`region, this`dirsMet, this`seen, this`spoiled, reader`current, reader`unclosed, reader.net`open, reader.net`resp, reader.net`faults
      ensures Valid() && walkActive && walkGeneration == generation && walk.pageIndex == pageIndex
      ensures reader.net.faults >= old(reader.net.faults)
      ensures if resumes then Remaining() == old(Remaining()) && spoiled == old(spoiled)
              else Remaining() == 2 * |Dir()| + 3 && !spoiled
    {
      hide RawReader.Valid, Tnfs.Net.Valid, Canonical, Progress;
      var resuming := walkActive && walkGeneration == generation && walk.pageIndex == pageIndex;
      if walkActive && !resuming { AbandonWalk(); }
      if !resuming { BeginWalk(pageIndex); }
    }

    /** What the walk loop's outcome means for the caller; a walk that is over gives its handle back. */
    method Conclude(turn: Turn, pageIndex: dword) returns (result: PageResult)
      requires turn.Continue? || turn.OpenFailed? ==> Valid()
      requires turn.OpenFailed? <==> !walkActive
      requires turn.OpenFailed? ==> turn.why !in {Ok, EndOfListing, InProgress, NotOpen, StaleGeneration}
      requires Ledger() && isOpen && Home(cwd)
      requires nextGeneration == (1 + issued) % TWO_TO_32 && issued > 0 && generation == issued % TWO_TO_32
      requires turn.PageFull? || turn.Completed? ==>
                Shown(Dir(), pageIndex, region, walk.collected, turn.PageFull?, seen, spoiled)
      modifies this`walkActive, this`walkHandleOpen, reader`current, reader`unclosed, reader.net`open, reader.net`resp, reader.net`faults
      ensures Valid() && (turn.Continue? <==> walkActive) && reader.net.faults >= old(reader.net.faults)
      ensures match turn
              case OpenFailed(why) => result == PageResult(why, generation, 0, false, false)
              case Broken => result == PageResult(BackendError, generation, 0, false, false)
              case Continue =>
                result == PageResult(InProgress, generation, 0, false, false) && Remaining() == old(Remaining())
              case PageFull => result == PageResult(Ok, generation, walk.collected, pageIndex > 0, true)
              case Completed =>
                result == PageResult(if walk.collected == 0 then EndOfListing else Ok, generation, walk.collected, pageIndex > 0, false)
    {
      hide RawReader.Valid, Canonical, Shown, Progress;
      if turn.OpenFailed? { return PageResult(turn.why, generation, 0, false, false); }
      if !turn.Continue? && walkHandleOpen {
        reader.CloseDir(FLOPPY_SLOT, walkHandle);
        walkHandleOpen := false;
      }
      if turn.Broken? {
        walkActive := false;
        return PageResult(BackendError, generation, 0, false, false);
      }
      if turn.Continue? {
        return PageResult(InProgress, generation, 0, false, false);
      }
      walkActive := false;
      var hasNext := turn.PageFull?;
      var status := if walk.collected == 0 && !hasNext then EndOfListing else Ok;
      return PageResult(status, generation, walk.collected, pageIndex > 0, hasNext);
    }

    /** The rounds one call may take; its time is up after `budget` of them. */
    method WalkLoop(budget: nat) returns (turn: Turn, ghost turns: nat)
      requires Valid() && walkActive
      modifies this`walkActive, this`walkHandle, this`walkHandleOpen, this`walk, this`region
      modifies this`dirsMet, this`seen, this`spoiled, reader, reader.net`open, reader.net`resp, reader.net`faults, reader.net`lost
      ensures Ledger() && walk.pageIndex == old(walk.pageIndex)
      ensures turn.OpenFailed? <==> !walkActive
      ensures turn.OpenFailed? ==> turn.why in {DirMissing, AccessDenied, PathTooLong, BackendError}
      ensures NoWorse(turn, old(reader.net.faults))
      ensures SpoiledOnlyBy(old(spoiled), old(reader.net.lost), old(reader.starvations), old(reader.net.faults))
      ensures turn.Continue? || turn.OpenFailed? ==> Valid()
      ensures turn.Continue? ==> Remaining() + turns <= old(Remaining()) && turns == RoundsOf(budget)
      ensures turn.PageFull? || turn.Completed? ==>
                Shown(Dir(), walk.pageIndex, region, walk.collected, turn.PageFull?, seen, spoiled)
    {
      ghost var before, lost, starvations, faults := spoiled, reader.net.lost, reader.starvations, reader.net.faults;
      NotYetSpoiled(spoiled);
      StillNoWorse();
      hide *;
      turns, turn := 0, Continue;
      for round := 0 to ROUNDS_PER_CALL
        invariant turn.Continue? && Valid() && walkActive && walk.pageIndex == old(walk.pageIndex)
        invariant turns == round <= budget && reader.net.faults >= faults
        invariant Remaining() + turns <= old(Remaining())
        invariant SpoiledOnlyBy(before, lost, starvations, faults)
      {
        if round >= budget { break; }
        turn := NextTurn(before, lost, starvations, faults);
        if !turn.Continue? { break; }
        turns := turns + 1;
      }
      if turn.Continue? {
        StillNoWorse();
        NoWorseThan(turn, faults, reader.net.faults);
        ValidLedger();
        RoundsAre(budget, turns);
      }
    }

    /** One more round, as part of a call that began with these counts. */
    method NextTurn(ghost before: bool, ghost lost: nat, ghost starvations: nat, ghost faults: nat) returns (turn: Turn)
      requires Valid() && walkActive && faults <= reader.net.faults && SpoiledOnlyBy(before, lost, starvations, faults)
      modifies this`walkActive, this`walkHandle, this`walkHandleOpen, this`walk, this`region
      modifies this`dirsMet, this`seen, this`spoiled, reader, reader.net`open, reader.net`resp, reader.net`faults, reader.net`lost
      ensures Ledger() && walk.pageIndex == old(walk.pageIndex) && faults <= reader.net.faults
      ensures turn.OpenFailed? <==> !walkActive
      ensures turn.OpenFailed? ==> turn.why in {DirMissing, AccessDenied, PathTooLong, BackendError}
      ensures NoWorse(turn, faults) && SpoiledOnlyBy(before, lost, starvations, faults)
      ensures turn.Continue? || turn.OpenFailed? ==> Valid()
      ensures turn.Continue? ==> Remaining() < old(Remaining())
      ensures turn.PageFull? || turn.Completed? ==>
                Shown(Dir(), walk.pageIndex, region, walk.collected, turn.PageFull?, seen, spoiled)
    {
      hide Valid, Ledger, Remaining, SpoiledOnlyBy, NoWorse, Overrun, Shown, Calm, RawReader.Valid;
      SpoiledFacts(before, lost, starvations, faults);
      ghost var before1, lost1, starvations1, faults1 := spoiled, reader.net.lost, reader.starvations, reader.net.faults;
      turn := WalkTurn();
      NoWorseThan(turn, faults, faults1);
      SpoiledChain(before, lost, starvations, faults, before1, lost1, starvations1, faults1);
    }

    lemma StillNoWorse()
      ensures NoWorse(Continue, reader.net.faults)
    {
    }

    lemma NoWorseThan(turn: Turn, faults: nat, faults1: nat)
      requires faults <= faults1 && NoWorse(turn, faults1)
      ensures NoWorse(turn, faults) && faults1 <= reader.net.faults
    {
      hide Overrun;
    }

    lemma ValidLedger()
      requires Valid()
      ensures Ledger()
    {
      hide RawReader.Valid, WalkValid;
    }

    /**
     * GET_PAGE: fetches, or goes on fetching, one page of the current directory.  The call's time is
     * up after `budget` rounds; `turns` counts those that brought the walk forward.
     */
    method GetPage(gen: dword, pageIndex: dword, budget: nat) returns (result: PageResult, ghost turns: nat)
      requires Valid()
      modifies this`walkActive, this`walkGeneration, this`walk, this`walkHandle, this`walkHandleOpen
      modifies this`region, this`dirsMet, this`seen, this`spoiled, reader, reader.net`open, reader.net`resp, reader.net`faults, reader.net`lost
      ensures Valid()
      ensures !isOpen ==> result.status == NotOpen
      ensures isOpen && gen != generation ==> result.status == StaleGeneration && result.generation == generation
      ensures result.status in {NotOpen, StaleGeneration} ==> region == old(region) && walkActive == old(walkActive)
      ensures isOpen && gen == generation ==> result.status !in {NotOpen, StaleGeneration}
      ensures isOpen && gen == generation ==> (result.status == InProgress <==> walkActive)
      ensures reader.net.faults >= old(reader.net.faults)
      ensures result.status == InProgress ==> walkGeneration == gen && walk.pageIndex == pageIndex && turns == RoundsOf(budget)
      ensures result.status !in {NotOpen, StaleGeneration, InProgress, Ok, EndOfListing} ==>
                || reader.net.faults > old(reader.net.faults)
                || (result.status == BackendError && Overrun(Dir(), Skip(pageIndex), spoiled))
      ensures result.status == InProgress ==>
                0 <= Remaining() <= (if Resumes(old(walkActive), old(walkGeneration), old(walk.pageIndex), gen, pageIndex)
                                     then old(Remaining()) else 2 * |Dir()| + 3) - turns
      ensures SpoiledOnlyBy(Resumes(old(walkActive), old(walkGeneration), old(walk.pageIndex), gen, pageIndex) && old(spoiled),
                            old(reader.net.lost), old(reader.starvations), old(reader.net.faults)) || result.status in {NotOpen, StaleGeneration}
      ensures result.status in {Ok, EndOfListing} ==>
                && Shown(Dir(), pageIndex, region, result.count, result.hasNext, seen, spoiled)
                && (result.status == EndOfListing <==> result.count == 0 && !result.hasNext)
                && (result.hasPrev <==> pageIndex > 0)
                && PageInBits(Dir(), pageIndex, region, result.count, result.hasNext, !spoiled)
    {
      hide RawReader.Valid, Tnfs.Net.Valid, Home, Shown, WalkValid, Resumes, RoundsOf, Remaining, SpoiledOnlyBy, PageInBits;
      turns := 0;
      if !isOpen { return PageResult(NotOpen, 0, 0, false, false), turns; }
      if gen != generation { return PageResult(StaleGeneration, generation, 0, false, false), turns; }
      result, turns := WalkPage(pageIndex, budget, Resumes(walkActive, walkGeneration, walk.pageIndex, generation, pageIndex));
      if result.status in {Ok, EndOfListing} {
        ShownInBits(Dir(), pageIndex, region, result.count, result.hasNext, seen, spoiled);
      }
    }

    /** GET_PAGE once the session and the generation are known to be right. */
    method WalkPage(pageIndex: dword, budget: nat, ghost resumes: bool) returns (result: PageResult, ghost turns: nat)
      requires Valid() && isOpen && resumes == Resumes(walkActive, walkGeneration, walk.pageIndex, generation, pageIndex)
      modifies this`walkActive, this`walkGeneration, this`walk, this`walkHandle, this`walkHandleOpen
      modifies this`region, this`dirsMet, this`seen, this`spoiled, reader, reader.net`open, reader.net`resp, reader.net`faults, reader.net`lost
      ensures Valid() && reader.net.faults >= old(reader.net.faults)
      ensures result.status !in {NotOpen, StaleGeneration} && (result.status == InProgress <==> walkActive)
      ensures result.status !in {InProgress, Ok, EndOfListing} ==>
                || reader.net.faults > old(reader.net.faults)
                || (result.status == BackendError && Overrun(Dir(), Skip(pageIndex), spoiled))
      ensures result.status == InProgress ==>
                && walkGeneration == generation && walk.pageIndex == pageIndex && turns == RoundsOf(budget)
                && 0 <= Remaining() <= (if resumes then old(Remaining()) else 2 * |Dir()| + 3) - turns
      ensures SpoiledOnlyBy(resumes && old(spoiled), old(reader.net.lost), old(reader.starvations), old(reader.net.faults))
      ensures result.status in {Ok, EndOfListing} ==>
                && Shown(Dir(), pageIndex, region, result.count, result.hasNext, seen, spoiled)
                && (result.status == EndOfListing <==> result.count == 0 && !result.hasNext)
                && (result.hasPrev <==> pageIndex > 0)
    {
      hide RawReader.Valid, Tnfs.Net.Valid, Home, Shown, WalkValid, Resumes, RoundsOf, Remaining;
      TakeUpWalk(pageIndex, resumes);
      result, turns := GoOn(pageIndex, budget);
    }

    /** The walk goes on until the call's time is up or the page is there. */
    method GoOn(pageIndex: dword, budget: nat) returns (result: PageResult, ghost turns: nat)
      requires Valid() && isOpen && walkActive && walkGeneration == generation && walk.pageIndex == pageIndex
      modifies this`walkActive, this`walk, this`walkHandle, this`walkHandleOpen
      modifies this`region, this`dirsMet, this`seen, this`spoiled, reader, reader.net`open, reader.net`resp, reader.net`faults, reader.net`lost
      ensures Valid() && reader.net.faults >= old(reader.net.faults)
      ensures result.status !in {NotOpen, StaleGeneration} && (result.status == InProgress <==> walkActive)
      ensures result.status !in {InProgress, Ok, EndOfListing} ==>
                || reader.net.faults > old(reader.net.faults)
                || (result.status == BackendError && Overrun(Dir(), Skip(pageIndex), spoiled))
      ensures result.status == InProgress ==>
                walk.pageIndex == pageIndex && turns == RoundsOf(budget) && 0 <= Remaining() <= old(Remaining()) - turns
      ensures SpoiledOnlyBy(old(spoiled), old(reader.net.lost), old(reader.starvations), old(reader.net.faults))
      ensures result.status in {Ok, EndOfListing} ==>
                && Shown(Dir(), pageIndex, region, result.count, result.hasNext, seen, spoiled)
                && (result.status == EndOfListing <==> result.count == 0 && !result.hasNext)
                && (result.hasPrev <==> pageIndex > 0)
    {
      hide RawReader.Valid, Tnfs.Net.Valid, Home, Shown, WalkValid, RoundsOf, Remaining;
      var turn;
      turn, turns := WalkLoop(budget);
      result := Conclude(turn, pageIndex);
      if walkActive { RemainingIsBounded(); }
    }

    /** The answer is the asked-for slice of the catalogue. */
    ghost predicate ExactPage(result: PageResult, pageIndex: dword)
      reads this
    {
      && result.status in {Ok, EndOfListing} && InDir(Dir(), Catalogue(Dir()))
      && PageOf(Dir(), Catalogue(Dir()), Skip(pageIndex), region, result.count, result.hasNext)
    }

    /** A walk for this very page is parked that has already missed something. */
    ghost predicate SpoiledWalkFor(pageIndex: dword)
      reads this
    {
      Resumes(walkActive, walkGeneration, walk.pageIndex, generation, pageIndex) && spoiled
    }

    /**
     * A caller that asks for a page until it is there, each call being cut after some other budget.
     * It gets it after a bounded number of calls.  If no exchange fails, the server is prompt, all
     * answers fit the buffer and there is no drought, it is the asked-for slice of the catalogue,
     * unless the page lies behind more rows than a walk may meet.
     */
    method FetchPage(gen: dword, pageIndex: dword) returns (result: PageResult, ghost calls: nat)
      requires Valid() && isOpen && gen == generation
      modifies this`walkActive, this`walkGeneration, this`walk, this`walkHandle, this`walkHandleOpen
      modifies this`region, this`dirsMet, this`seen, this`spoiled
      modifies reader, reader.net`open, reader.net`resp, reader.net`faults, reader.net`lost
      ensures Valid() && result.status !in {InProgress, NotOpen, StaleGeneration} && calls <= 2 * |Dir()| + 4
      ensures reader.net.faults == old(reader.net.faults) && reader.net.prompt && !old(SpoiledWalkFor(pageIndex))
              && Tnfs.AnswersFit(Dir(), 15) && NoDrought(Dir()) ==>
                if TooManyRows(Dir(), Skip(pageIndex)) then result.status == BackendError else ExactPage(result, pageIndex)
      ensures reader.net.lost == old(reader.net.lost) && reader.starvations == old(reader.starvations) && !old(SpoiledWalkFor(pageIndex))
              && result.status in {Ok, EndOfListing} ==>
                ExactPage(result, pageIndex)
      ensures result.status in {Ok, EndOfListing} ==> PageInBits(Dir(), pageIndex, region, result.count, result.hasNext, false)
      ensures ExactPage(result, pageIndex) ==> PageInBits(Dir(), pageIndex, region, result.count, result.hasNext, true)
      ensures reader.net.faults == old(reader.net.faults) && !MayBeTooMany(Dir(), Skip(pageIndex)) ==> result.status in {Ok, EndOfListing}
    {
      ghost var before, lost, starvations, faults := SpoiledWalkFor(pageIndex), reader.net.lost, reader.starvations, reader.net.faults;
      result, calls := AskUntilThere(gen, pageIndex);
      FetchMeans(result, pageIndex, before, lost, starvations, faults);
      FetchInBits(result, pageIndex, before, lost, starvations, faults);
    }

    lemma FetchMeans(result: PageResult, pageIndex: dword, before: bool, lost: nat, starvations: nat, faults: nat)
      requires Fetched(result, pageIndex, before, lost, starvations, faults) && result.status !in {InProgress, NotOpen, StaleGeneration}
      ensures reader.net.lost == lost && reader.starvations == starvations && !before && result.status in {Ok, EndOfListing} ==>
                ExactPage(result, pageIndex)
      ensures reader.net.faults == faults && !MayBeTooMany(Dir(), Skip(pageIndex)) ==> result.status in {Ok, EndOfListing}
      ensures reader.net.faults == faults && reader.net.prompt && !before && Tnfs.AnswersFit(Dir(), 15) && NoDrought(Dir()) ==>
                if TooManyRows(Dir(), Skip(pageIndex)) then result.status == BackendError else ExactPage(result, pageIndex)
    {
      hide Calm, PageOf, Catalogue, Skip, MayBeTooMany, TooManyRows, Selection, Tnfs.AnswersFit, NoDrought;
      CalmFacts(Dir(), reader.net.prompt, lost, reader.net.lost, starvations, reader.starvations);
    }

    lemma FetchInBits(result: PageResult, pageIndex: dword, before: bool, lost: nat, starvations: nat, faults: nat)
      requires Fetched(result, pageIndex, before, lost, starvations, faults)
      ensures result.status in {Ok, EndOfListing} ==> PageInBits(Dir(), pageIndex, region, result.count, result.hasNext, false)
      ensures ExactPage(result, pageIndex) ==> PageInBits(Dir(), pageIndex, region, result.count, result.hasNext, true)
    {
      hide SpoiledOnlyBy, Overrun, Shown, InDir, PageOf, Catalogue, Skip, Showable, ListInBits, RowsInBits;
      if result.status in {Ok, EndOfListing} {
        ShownInBits(Dir(), pageIndex, region, result.count, result.hasNext, seen, spoiled);
      }
      if ExactPage(result, pageIndex) { CatalogueIsShown(Dir(), pageIndex, region, result.count, result.hasNext); }
    }

    /** What is known of an answer to GET_PAGE, and of the walk behind it. */
    ghost predicate Fetched(result: PageResult, pageIndex: dword, before: bool, lost: nat, starvations: nat, faults: nat)
      reads this, reader, reader.net
    {
      && SpoiledOnlyBy(before, lost, starvations, faults) && faults <= reader.net.faults
      && (result.status !in {InProgress, Ok, EndOfListing} ==>
            faults < reader.net.faults || (result.status == BackendError && Overrun(Dir(), Skip(pageIndex), spoiled)))
      && (result.status in {Ok, EndOfListing} ==> Shown(Dir(), pageIndex, region, result.count, result.hasNext, seen, spoiled))
    }

    method AskUntilThere(gen: dword, pageIndex: dword) returns (result: PageResult, ghost calls: nat)
      requires Valid() && isOpen && gen == generation
      modifies this`walkActive, this`walkGeneration, this`walk, this`walkHandle, this`walkHandleOpen
      modifies this`region, this`dirsMet, this`seen, this`spoiled
      modifies reader, reader.net`open, reader.net`resp, reader.net`faults, reader.net`lost
      ensures Valid() && result.status !in {InProgress, NotOpen, StaleGeneration} && calls <= 2 * |Dir()| + 4
      ensures Fetched(result, pageIndex, old(SpoiledWalkFor(pageIndex)), old(reader.net.lost), old(reader.starvations), old(reader.net.faults))
    {
      ghost var before, lost, starvations, faults := SpoiledWalkFor(pageIndex), reader.net.lost, reader.starvations, reader.net.faults;
      ghost var n := |Dir()|;
      ParkedIsBounded(pageIndex);
      hide *;
      result := AskOnce(gen, pageIndex);
      calls := 1;
      while result.status == InProgress
        invariant Valid() && result.status !in {NotOpen, StaleGeneration}
        invariant Fetched(result, pageIndex, before, lost, starvations, faults) && calls <= 2 * n + 4 && |Dir()| == n
        invariant result.status == InProgress ==> Parked(pageIndex) && 0 <= Remaining() <= 2 * n + 3 - calls
        decreases if result.status == InProgress then 1 + Remaining() else 0
      {
        result := AskAgain(gen, pageIndex, result, before, lost, starvations, faults);
        calls := calls + 1;
      }
    }

    method AskAgain(gen: dword, pageIndex: dword, ghost last: PageResult, ghost before: bool, ghost lost: nat, ghost starvations: nat, ghost faults: nat)
      returns (result: PageResult)
      requires Valid() && isOpen && gen == generation && Parked(pageIndex)
      requires Fetched(last, pageIndex, before, lost, starvations, faults)
      modifies this`walkActive, this`walkGeneration, this`walk, this`walkHandle, this`walkHandleOpen
      modifies this`region, this`dirsMet, this`seen, this`spoiled
      modifies reader, reader.net`open, reader.net`resp, reader.net`faults, reader.net`lost
      ensures Valid() && result.status !in {NotOpen, StaleGeneration}
      ensures Fetched(result, pageIndex, before, lost, starvations, faults) && Dir() == old(Dir())
      ensures result.status == InProgress ==> Parked(pageIndex) && 0 <= Remaining() < old(Remaining())
    {
      hide Valid, Remaining, SpoiledOnlyBy, Overrun, Shown, Skip, Fetched, Parked, SpoiledWalkFor, Calm, Resumes, RawReader.Valid;
      ghost var before1, lost1, starvations1, faults1 := spoiled, reader.net.lost, reader.starvations, reader.net.faults;
      FetchedFacts(last, pageIndex, before, lost, starvations, faults);
      ParkedFacts(pageIndex);
      result := AskOnce(gen, pageIndex);
      FetchedThen(result, pageIndex, before, lost, starvations, faults, before1, lost1, starvations1, faults1);
    }

    /** A walk for this page waits to be resumed. */
    ghost predicate Parked(pageIndex: dword)
      reads this
    {
      Resumes(walkActive, walkGeneration, walk.pageIndex, generation, pageIndex)
    }

    lemma ParkedIsBounded(pageIndex: dword)
      requires Valid()
      ensures Parked(pageIndex) ==> 0 <= Remaining() <= 2 * |Dir()| + 3
    {
      hide RawReader.Valid, WalkValid;
      if walkActive { RemainingIsBounded(); }
    }

    lemma ParkedFacts(pageIndex: dword)
      requires Parked(pageIndex)
      ensures SpoiledWalkFor(pageIndex) <==> spoiled
    {
    }

    /** One call, cut after some budget. */
    method AskOnce(gen: dword, pageIndex: dword) returns (result: PageResult)
      requires Valid() && isOpen && gen == generation
      modifies this`walkActive, this`walkGeneration, this`walk, this`walkHandle, this`walkHandleOpen
      modifies this`region, this`dirsMet, this`seen, this`spoiled
      modifies reader, reader.net`open, reader.net`resp, reader.net`faults, reader.net`lost
      ensures Valid() && result.status !in {NotOpen, StaleGeneration} && Dir() == old(Dir())
      ensures Fetched(result, pageIndex, old(SpoiledWalkFor(pageIndex)), old(reader.net.lost), old(reader.starvations), old(reader.net.faults))
      ensures result.status == InProgress ==>
                && Parked(pageIndex)
                && 0 <= Remaining() < (if old(Parked(pageIndex)) then old(Remaining()) else 2 * |Dir()| + 3)
    {
      ghost var before, lost, starvations, faults := SpoiledWalkFor(pageIndex), reader.net.lost, reader.starvations, reader.net.faults;
      hide Valid, Dir, Remaining, SpoiledOnlyBy, Overrun, Shown, Skip, RoundsOf, Fetched, RawReader.Valid;
      var budget: nat :| budget > 0;
      SomeRounds(budget);
      ghost var turns;
      result, turns := GetPage(gen, pageIndex, budget);
      FetchedOnce(result, pageIndex, before, lost, starvations, faults);
    }

    lemma SpoiledFacts(before: bool, lost: nat, starvations: nat, faults: nat)
      ensures SpoiledOnlyBy(before, lost, starvations, faults) <==>
                && lost <= reader.net.lost && starvations <= reader.starvations
                && (spoiled ==> before || lost < reader.net.lost || starvations < reader.starvations)
                && (reader.net.faults == faults ==> Calm(Dir(), reader.net.prompt, lost, reader.net.lost, starvations, reader.starvations))
    {
      hide Calm;
    }

    /** What two stretches of a walk did to it. */
    lemma SpoiledChain(before: bool, lost: nat, starvations: nat, faults: nat,
                       before1: bool, lost1: nat, starvations1: nat, faults1: nat)
      requires lost <= lost1 && starvations <= starvations1 && faults <= faults1 <= reader.net.faults
      requires before1 ==> before || lost < lost1 || starvations < starvations1
      requires faults1 == faults ==> Calm(Dir(), reader.net.prompt, lost, lost1, starvations, starvations1)
      requires SpoiledOnlyBy(before1, lost1, starvations1, faults1)
      ensures SpoiledOnlyBy(before, lost, starvations, faults)
    {
      if reader.net.faults == faults {
        CalmChain(Dir(), reader.net.prompt, lost, lost1, reader.net.lost, starvations, starvations1, reader.starvations);
      }
      hide Calm;
    }

    lemma FetchedOnce(result: PageResult, pageIndex: dword, before: bool, lost: nat, starvations: nat, faults: nat)
      requires SpoiledOnlyBy(before, lost, starvations, faults) && faults <= reader.net.faults
      requires result.status !in {InProgress, Ok, EndOfListing} ==>
                 faults < reader.net.faults || (result.status == BackendError && Overrun(Dir(), Skip(pageIndex), spoiled))
      requires result.status in {Ok, EndOfListing} ==> Shown(Dir(), pageIndex, region, result.count, result.hasNext, seen, spoiled)
      ensures Fetched(result, pageIndex, before, lost, starvations, faults)
    {
      hide SpoiledOnlyBy, Overrun, Shown;
    }

    lemma FetchedFacts(result: PageResult, pageIndex: dword, before: bool, lost: nat, starvations: nat, faults: nat)
      requires Fetched(result, pageIndex, before, lost, starvations, faults)
      ensures lost <= reader.net.lost && starvations <= reader.starvations && faults <= reader.net.faults
      ensures spoiled ==> before || lost < reader.net.lost || starvations < reader.starvations
      ensures reader.net.faults == faults ==> Calm(Dir(), reader.net.prompt, lost, reader.net.lost, starvations, reader.starvations)
    {
      hide Overrun, Shown, Calm;
    }

    /** One more call. */
    lemma FetchedThen(result: PageResult, pageIndex: dword, before: bool, lost: nat, starvations: nat, faults: nat,
                      before1: bool, lost1: nat, starvations1: nat, faults1: nat)
      requires lost <= lost1 && starvations <= starvations1 && faults <= faults1
      requires before1 ==> before || lost < lost1 || starvations < starvations1
      requires faults1 == faults ==> Calm(Dir(), reader.net.prompt, lost, lost1, starvations, starvations1)
      requires Fetched(result, pageIndex, before1, lost1, starvations1, faults1)
      ensures Fetched(result, pageIndex, before, lost, starvations, faults)
    {
      hide SpoiledOnlyBy, Overrun, Shown, Calm;
      SpoiledChain(before, lost, starvations, faults, before1, lost1, starvations1, faults1);
    }

    lemma NotYetSpoiled(before: bool)
      requires spoiled ==> before
      ensures SpoiledOnlyBy(before, reader.net.lost, reader.starvations, reader.net.faults)
    {
      StillCalm(Dir(), reader.net.prompt, reader.net.lost, reader.starvations);
    }

    /** Where BROWSE_OPEN starts: the requested directory in normal form, or the root. */
    method RequestedCwd(start: Option<seq<byte>>) returns (requested: seq<byte>)
      requires start.Some? ==> CString(start.value)
      ensures Canonical(requested) && |requested| < CWD_LEN && requested == StartDir(start)
    {
      RootIsCanonical();
      if start.None? || start.value == [] { return ROOT; }
      RenderedTargetIsCanonical(start.value);
      hide Canonical, Render, Target;
      var normal := NormalizePath(start.value, CWD_LEN);
      return if normal.Some? then normal.value else ROOT;
    }

    /** Opens and closes a directory, to see whether it is there. */
    method Probe(path: seq<byte>) returns (status: Status)
      requires Ledger()
      modifies reader`cache, reader`current, reader`served, reader`unclosed, reader.net`open, reader.net`resp, reader.net`faults
      ensures Ledger() && status in {Ok, DirMissing, AccessDenied, PathTooLong, BackendError}
      ensures status == Ok ==> Openable(path)
      ensures |path| >= Tnfs.MAX_FOLDER_LENGTH <==> status == PathTooLong
      ensures reader.net.faults >= old(reader.net.faults)
      ensures reader.net.faults == old(reader.net.faults) && |path| < Tnfs.MAX_FOLDER_LENGTH ==>
                status == if Openable(path) then Ok else DirMissing
      ensures status != Ok && old(Valid()) ==> Valid()
    {
      hide Canonical, Progress;
      var r := reader.OpenDir(FLOPPY_SLOT, path);
      if r.DirOk? { reader.CloseDir(FLOPPY_SLOT, r.handle); }
      return OpenStatus(r);
    }

    /** Looks for a directory, and for the root if it is not there. */
    method ProbeOrRoot(path: seq<byte>) returns (status: Status, found: seq<byte>)
      requires Ledger() && Canonical(path) && |path| < CWD_LEN
      modifies reader`cache, reader`current, reader`served, reader`unclosed, reader.net`open, reader.net`resp, reader.net`faults
      ensures Ledger() && status in {Ok, DirMissing, AccessDenied, PathTooLong, BackendError}
      ensures status == Ok ==> Home(found) && found in {path, ROOT}
      ensures reader.net.faults >= old(reader.net.faults)
      ensures reader.net.faults == old(reader.net.faults) ==>
                && (status == Ok <==> Openable(path) || Openable(ROOT))
                && (status == Ok ==> found == if Openable(path) then path else ROOT)
      ensures status != Ok && old(Valid()) ==> Valid()
    {
      hide RawReader.Valid, Tnfs.Net.Valid, Canonical, Progress, WalkValid;
      found := path;
      status := Probe(path);
      if status != Ok && path != ROOT {
        RootIsCanonical();
        found := ROOT;
        status := Probe(ROOT);
      }
    }

    /** The session moves to a new directory, under a new generation. */
    method MoveTo(path: seq<byte>)
      requires Ledger() && !walkActive && Home(path)
      requires nextGeneration == (1 + issued) % TWO_TO_32
      modifies this`isOpen, this`cwd, this`generation, this`nextGeneration, this`issued
      ensures Valid() && isOpen && cwd == path && issued == old(issued) + 1
    {
      NextNumber(issued + 1);
      hide RawReader.Valid, Home;
      isOpen, cwd, generation, issued := true, path, nextGeneration, issued + 1;
      nextGeneration := (nextGeneration + 1) % TWO_TO_32;
    }

    /** BROWSE_OPEN on a TNFS source. */
    method Open(host: seq<byte>, start: Option<seq<byte>>, mount: MountOutcome)
      returns (status: Status, outGeneration: dword, outCwd: seq<byte>)
      requires Valid() && (start.Some? ==> CString(start.value))
      modifies this, reader, reader.net
      ensures Valid() && !walkActive
      ensures status == Ok ==>
                && isOpen && outCwd == cwd && outGeneration == generation && issued == old(issued) + 1
                && Openable(cwd) && cwd in {StartDir(start), ROOT}
      ensures host != [] && mount.Mounted? && reader.net.faults == old(reader.net.faults) ==>
                && (status == Ok <==> Openable(StartDir(start)) || Openable(ROOT))
                && (status == Ok ==> cwd == if Openable(StartDir(start)) then StartDir(start) else ROOT)
      ensures status != Ok ==>
                && outCwd == ROOT && outGeneration == 0
                && isOpen == old(isOpen) && cwd == old(cwd) && generation == old(generation) && issued == old(issued)
      ensures host == [] ==> status == SourceNotConfigured
      ensures host != [] && mount.NoConnection? ==> status == TnfsNotConnected
      ensures host != [] && mount.NoAnswer? ==> status == TnfsHostUnreachable
    {
      hide RawReader.Valid, Tnfs.Net.Valid, Canonical, Progress;
      AbandonWalk();
      outGeneration, outCwd := 0, ROOT;
      var requested := RequestedCwd(start);
      if host == [] { return SourceNotConfigured, 0, ROOT; }
      if mount.NoConnection? { return TnfsNotConnected, 0, ROOT; }
      if mount.NoAnswer? { return TnfsHostUnreachable, 0, ROOT; }
      status, requested := ProbeOrRoot(requested);
      if status != Ok { return status, 0, ROOT; }
      MoveTo(requested);
      return Ok, generation, cwd;
    }

    /** The path CHANGE_DIR aims at, or why there is none. */
    method Candidate(goUp: bool, name: Option<seq<byte>>) returns (status: Status, path: seq<byte>)
      requires isOpen && Canonical(cwd) && (name.Some? ==> CString(name.value))
      ensures status in {Ok, DirMissing, PathTooLong}
      ensures status == Ok ==> Canonical(path) && |path| < CWD_LEN
      ensures status == Ok <==> Reaches(cwd, goUp, name)
      ensures status == Ok ==> path == Destination(cwd, goUp, name)
      ensures status == DirMissing <==> !goUp && (name.None? || !Name(name.value))
    {
      var input;
      CanonicalIsClean(cwd);
      if goUp {
        input := cwd + [SLASH] + PARENT;
        UpTarget(cwd);
      } else {
        if name.None? || name.value == [] || SLASH in name.value || BACKSLASH in name.value
           || name.value == CURRENT || name.value == PARENT {
          return DirMissing, [];
        }
        input := cwd + [SLASH] + name.value;
        EnterTarget(cwd, name.value);
      }
      if |input| >= CWD_LEN + NAME_LEN + 2 { return PathTooLong, []; }
      RenderedTargetIsCanonical(input);
      hide Canonical, Render, Target, Components;
      var normal := NormalizePath(input, CWD_LEN);
      if normal.None? { return PathTooLong, []; }
      return Ok, normal.value;
    }

    /** BROWSE_CHANGE_DIR.  A failed change leaves the session, and a parked walk, as they were. */
    method ChangeDir(gen: dword, goUp: bool, name: Option<seq<byte>>)
      returns (status: Status, outGeneration: dword, outCwd: seq<byte>)
      requires Valid() && (name.Some? ==> CString(name.value))
      modifies this, reader, reader.net
      ensures Valid() && reader.net.faults >= old(reader.net.faults)
      ensures !old(isOpen) ==> status == NotOpen && outGeneration == 0 && outCwd == ROOT
      ensures old(isOpen) && gen != old(generation) ==> status == StaleGeneration
      ensures old(isOpen) ==> outGeneration == generation && outCwd == cwd
      ensures isOpen == old(isOpen)
      ensures status == Ok ==>
                && Reaches(old(cwd), goUp, name) && cwd == Destination(old(cwd), goUp, name)
                && issued == old(issued) + 1 && !walkActive && Openable(cwd)
      ensures old(isOpen) && gen == old(generation) && reader.net.faults == old(reader.net.faults) ==>
                (status == Ok <==> Reaches(old(cwd), goUp, name) && Openable(Destination(old(cwd), goUp, name)))
      ensures status != Ok ==>
                && cwd == old(cwd) && generation == old(generation) && issued == old(issued)
                && walkActive == old(walkActive) && walkHandleOpen == old(walkHandleOpen) && walkHandle == old(walkHandle)
                && walk == old(walk) && region == old(region) && seen == old(seen)
    {
      hide RawReader.Valid, Tnfs.Net.Valid, Canonical, Progress, Components, Render, Destination, Reaches;
      if !isOpen { return NotOpen, 0, ROOT; }
      if gen != generation { return StaleGeneration, generation, cwd; }
      var candidate;
      status, candidate := Candidate(goUp, name);
      if status != Ok { return status, generation, cwd; }
      status := Probe(candidate);
      if status != Ok { return status, generation, cwd; }
      AbandonWalk();
      MoveTo(candidate);
      return Ok, generation, cwd;
    }

    /** Entering a directory and going up again: two changes that succeed restore the working directory. */
    method EnterAndReturn(gen: dword, name: seq<byte>) returns (entered: Status, returned: Status)
      requires Valid() && isOpen && gen == generation && CString(name)
      modifies this, reader, reader.net
      ensures Valid() && isOpen
      ensures entered == Ok && returned == Ok ==> cwd == old(cwd) && issued == old(issued) + 2
      ensures entered != Ok ==> returned == NotOpen && cwd == old(cwd) && issued == old(issued)
      ensures entered == Ok && returned != Ok ==> cwd == Destination(old(cwd), false, Some(name))
      ensures entered == Ok && reader.net.faults == old(reader.net.faults) ==>
                (returned == Ok <==> BothFit(old(cwd), name) && Openable(old(cwd)))
    {
      ghost var start := cwd;
      ValidCwd();
      hide RawReader.Valid, Tnfs.Net.Valid, Canonical, Progress, Components, Render, Destination, Reaches, BothFit;
      var g, c;
      entered, g, c := ChangeDir(gen, false, Some(name));
      if entered != Ok { return entered, NotOpen; }
      ThereAndBack(start, name);
      returned, g, c := ChangeDir(g, true, None);
    }

    lemma ValidCwd()
      requires Valid() && isOpen
      ensures Canonical(cwd) && |cwd| < CWD_LEN
    {
      hide RawReader.Valid, Tnfs.Net.Valid, Canonical;
    }
  }

  /** Where CHANGE_DIR leads: one component fewer, or one more. */
  function Destination(cwd: seq<byte>, goUp: bool, name: Option<seq<byte>>): seq<byte> {
    var stack := Components(cwd);
    Render(if goUp then (if stack == [] then [] else stack[..|stack| - 1])
           else if name.Some? then stack + [name.value] else stack)
  }

  /** The name is one a directory can have, and both the text to be normalised and the result fit. */
  predicate Reaches(cwd: seq<byte>, goUp: bool, name: Option<seq<byte>>) {
    && (goUp || (name.Some? && Name(name.value)))
    && |cwd| + 1 + (if goUp then |PARENT| else |name.value|) < CWD_LEN
    && |Destination(cwd, goUp, name)| < CWD_LEN
  }

  /** `cwd`/`name`/`..` fits the buffer. */
  predicate BothFit(cwd: seq<byte>, name: seq<byte>) {
    |Destination(cwd, false, Some(name))| + 1 + |PARENT| < CWD_LEN
  }

  /** Going up undoes entering; it can be asked for exactly if the text to be normalised fits. */
  lemma ThereAndBack(cwd: seq<byte>, name: seq<byte>)
    requires Canonical(cwd) && |cwd| < CWD_LEN && Reaches(cwd, false, Some(name))
    ensures var inside := Destination(cwd, false, Some(name));
            Destination(inside, true, None) == cwd && (Reaches(inside, true, None) <==> BothFit(cwd, name))
  {
    var stack := Components(cwd) + [name];
    EnterTarget(cwd, name);
    ComponentsOfRender(stack);
    assert stack[..|stack| - 1] == Components(cwd);
  }

  predicate Resumes(active: bool, walkGeneration: dword, walkPage: dword, gen: dword, page: dword) {
    active && walkGeneration == gen && walkPage == page
  }
}
