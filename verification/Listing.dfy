/**
 * What a page of the floppy browser should show (sidetnfs_floppy_browse.h, 149-178): the usable
 * entries of the directory, subdirectories first, cut into pages of fifteen.
 */
module Listing {
  import opened Names
  import opened RawDir

  const PAGE_ENTRIES := 15

  const BLANK := RawEntry([], false)

  function Pick(dir: seq<Entry>, p: nat, dirs: bool): seq<nat>
    requires p < |dir|
  {
    if dir[p].Directory() == dirs then [p] else []
  }

  /** The positions among `at` that are directories, or that are files. */
  function Kind(dir: seq<Entry>, at: seq<nat>, dirs: bool): seq<nat>
    requires forall i :: 0 <= i < |at| ==> at[i] < |dir|
  {
    if at == [] then [] else Kind(dir, at[..|at| - 1], dirs) + Pick(dir, at[|at| - 1], dirs)
  }

  predicate InDir(dir: seq<Entry>, at: seq<nat>) {
    forall i :: 0 <= i < |at| ==> at[i] < |dir|
  }

  /** The whole listing, as positions. */
  ghost function Catalogue(dir: seq<Entry>): seq<nat> {
    UsableRangeOrdered(dir, 0, |dir|);
    Kind(dir, AllUsable(dir), true) + Kind(dir, AllUsable(dir), false)
  }

  /** Subdirectories come before files; within a kind the server's order stays. */
  predicate Before(dir: seq<Entry>, a: nat, b: nat)
    requires a < |dir| && b < |dir|
  {
    if dir[a].Directory() == dir[b].Directory() then a < b else dir[a].Directory()
  }

  /** Usable entries, none twice, in listing order: what may be shown however many answers were lost. */
  ghost predicate Selection(dir: seq<Entry>, at: seq<nat>) {
    && InDir(dir, at)
    && (forall i :: 0 <= i < |at| ==> Usable(dir[at[i]]))
    && (forall i, j :: 0 <= i < j < |at| ==> Before(dir, at[i], at[j]))
  }

  /** The `count` filled rows of the region are the rows of `list` from `skip` on. */
  ghost predicate PageOf(dir: seq<Entry>, list: seq<nat>, skip: nat, region: seq<RawEntry>, count: nat, hasNext: bool)
    requires InDir(dir, list)
  {
    && |region| == PAGE_ENTRIES
    && count == (if |list| <= skip then 0 else if |list| - skip < PAGE_ENTRIES then |list| - skip else PAGE_ENTRIES)
    && (forall j :: 0 <= j < count ==> region[j] == ToRaw(dir[list[skip + j]]))
    && (forall j :: count <= j < PAGE_ENTRIES ==> region[j] == BLANK)
    && (hasNext <==> |list| > skip + PAGE_ENTRIES)
  }

  // -- Facts about kinds -----------------------------------------------------------------------

  lemma KindExtend(dir: seq<Entry>, at: seq<nat>, p: nat, dirs: bool)
    requires InDir(dir, at) && p < |dir|
    ensures Kind(dir, at + [p], dirs) == Kind(dir, at, dirs) + Pick(dir, p, dirs)
  {
    assert (at + [p])[..|at|] == at;
  }

  lemma {:induction false} KindConcat(dir: seq<Entry>, a: seq<nat>, b: seq<nat>, dirs: bool)
    requires InDir(dir, a) && InDir(dir, b)
    ensures Kind(dir, a + b, dirs) == Kind(dir, a, dirs) + Kind(dir, b, dirs)
  {
    if b == [] {
      assert a + b == a;
    } else {
      var init, last := b[..|b| - 1], b[|b| - 1];
      KindConcat(dir, a, init, dirs);
      assert (a + b)[..|a + b| - 1] == a + init && (a + b)[|a + b| - 1] == last;
      Associative(Kind(dir, a, dirs), Kind(dir, init, dirs), Pick(dir, last, dirs));
    }
  }

  lemma Associative<T>(a: seq<T>, b: seq<T>, c: seq<T>)
    ensures (a + b) + c == a + (b + c)
  {
  }

  lemma KindOfPrefix(dir: seq<Entry>, a: seq<nat>, b: seq<nat>, dirs: bool)
    requires a <= b && InDir(dir, b)
    ensures InDir(dir, a) && Kind(dir, a, dirs) <= Kind(dir, b, dirs)
  {
    var tail := b[|a|..];
    assert b == a + tail;
    KindConcat(dir, a, tail, dirs);
  }

  lemma {:induction false} KindIsOrdered(dir: seq<Entry>, at: seq<nat>, hi: nat, dirs: bool)
    requires Ordered(dir, at, 0, hi)
    ensures Ordered(dir, Kind(dir, at, dirs), 0, hi)
    ensures OfKind(dir, Kind(dir, at, dirs), dirs)
  {
    if at != [] {
      var last := at[|at| - 1];
      KindIsOrdered(dir, at[..|at| - 1], last, dirs);
    }
  }

  ghost predicate OfKind(dir: seq<Entry>, at: seq<nat>, dirs: bool) {
    forall i :: 0 <= i < |at| ==> at[i] < |dir| && dir[at[i]].Directory() == dirs
  }

  lemma DirsThenFiles(dir: seq<Entry>, a: seq<nat>, b: seq<nat>)
    requires Ordered(dir, a, 0, |dir|) && OfKind(dir, a, true)
    requires Ordered(dir, b, 0, |dir|) && OfKind(dir, b, false)
    ensures Selection(dir, a + b)
  {
    var c := a + b;
    forall i | 0 <= i < |c| ensures c[i] < |dir| && Usable(dir[c[i]]) && dir[c[i]].Directory() == (i < |a|) {
      assert if i < |a| then c[i] == a[i] else c[i] == b[i - |a|];
    }
    forall i, j | 0 <= i < j < |c| ensures Before(dir, c[i], c[j]) {
      assert if i >= |a| then c[i] == b[i - |a|] && c[j] == b[j - |a|] else j < |a| ==> c[j] == a[j];
    }
  }

  /** How many usable directories, or files, there are. */
  ghost function Population(dir: seq<Entry>, dirs: bool): nat {
    UsableRangeOrdered(dir, 0, |dir|);
    |Kind(dir, AllUsable(dir), dirs)|
  }

  lemma OrderedLast(dir: seq<Entry>, at: seq<nat>, hi: nat)
    requires at != [] && Ordered(dir, at, 0, hi) && hi <= |dir|
    ensures var last := at[|at| - 1];
            && last < hi && Here(dir, last) == [last] && Ordered(dir, at, 0, last + 1)
            && Ordered(dir, at[..|at| - 1], 0, last)
  {
  }

  lemma KindGrows(dir: seq<Entry>, all: seq<nat>, p: nat, dirs: bool)
    requires InDir(dir, all) && p < |dir|
    ensures InDir(dir, all + Here(dir, p)) && |Kind(dir, all, dirs)| <= |Kind(dir, all + Here(dir, p), dirs)|
    ensures Here(dir, p) == [p] ==> Kind(dir, all + Here(dir, p), dirs) == Kind(dir, all, dirs) + Pick(dir, p, dirs)
  {
    if Here(dir, p) == [p] { KindExtend(dir, all, p, dirs); } else { assert all + Here(dir, p) == all; }
  }

  lemma KindInit(dir: seq<Entry>, at: seq<nat>, dirs: bool)
    requires InDir(dir, at) && at != []
    ensures Kind(dir, at, dirs) == Kind(dir, at[..|at| - 1], dirs) + Pick(dir, at[|at| - 1], dirs)
  {
  }

  lemma {:induction false} KindAtMost(dir: seq<Entry>, at: seq<nat>, hi: nat, dirs: bool)
    requires hi <= |dir| && Ordered(dir, at, 0, hi)
    ensures InDir(dir, at) && InDir(dir, UsableRange(dir, 0, hi))
    ensures |Kind(dir, at, dirs)| <= |Kind(dir, UsableRange(dir, 0, hi), dirs)|
  {
    UsableRangeOrdered(dir, 0, hi);
    assert InDir(dir, at);
    if at != [] {
      var last, all := at[|at| - 1], UsableRange(dir, 0, hi - 1);
      OrderedLast(dir, at, hi);
      UsableRangeOrdered(dir, 0, hi - 1);
      UsableRangeExtend(dir, 0, hi - 1);
      assert InDir(dir, all);
      KindGrows(dir, all, hi - 1, dirs);
      hide Ordered, UsableRange, Kind, Here, Usable;
      if last == hi - 1 {
        KindAtMost(dir, at[..|at| - 1], hi - 1, dirs);
        KindInit(dir, at, dirs);
      } else {
        OrderedWiden(dir, at, 0, last + 1, hi - 1);
        KindAtMost(dir, at, hi - 1, dirs);
      }
    }
  }

  /** No pass meets more rows of a kind than there are. */
  lemma KindWithinPopulation(dir: seq<Entry>, at: seq<nat>, dirs: bool)
    requires Ordered(dir, at, 0, |dir|)
    ensures |Kind(dir, at, dirs)| <= Population(dir, dirs)
  {
    KindAtMost(dir, at, |dir|, dirs);
  }

  /** Directories first, then files: a selection, whatever was lost in either pass. */
  lemma TwoPassesSelect(dir: seq<Entry>, first: seq<nat>, second: seq<nat>)
    requires Ordered(dir, first, 0, |dir|) && Ordered(dir, second, 0, |dir|)
    ensures Selection(dir, Kind(dir, first, true) + Kind(dir, second, false))
  {
    KindIsOrdered(dir, first, |dir|, true);
    KindIsOrdered(dir, second, |dir|, false);
    hide *;
    DirsThenFiles(dir, Kind(dir, first, true), Kind(dir, second, false));
  }

  lemma {:induction false} OrderedLength(dir: seq<Entry>, at: seq<nat>, hi: nat)
    requires Ordered(dir, at, 0, hi)
    ensures |at| <= hi
    decreases |at|
  {
    if at != [] {
      var last := at[|at| - 1];
      OrderedLength(dir, at[..|at| - 1], last);
    }
  }

  lemma {:induction false} UsableIsFound(dir: seq<Entry>, from: nat, p: nat)
    requires from <= p < |dir| && Usable(dir[p])
    ensures p in UsableRange(dir, from, |dir|)
    decreases |dir| - from
  {
    if from < p { UsableIsFound(dir, from + 1, p); }
  }

  lemma {:induction false} KindLosesNone(dir: seq<Entry>, at: seq<nat>, p: nat)
    requires InDir(dir, at) && p in at
    ensures p in Kind(dir, at, dir[p].Directory())
  {
    if p != at[|at| - 1] {
      assert p in at[..|at| - 1];
      KindLosesNone(dir, at[..|at| - 1], p);
    }
  }

  lemma CatalogueSelects(dir: seq<Entry>)
    ensures Selection(dir, Catalogue(dir))
  {
    UsableRangeOrdered(dir, 0, |dir|);
    TwoPassesSelect(dir, AllUsable(dir), AllUsable(dir));
  }

  /** The catalogue is itself a selection, and no usable entry is missing from it. */
  lemma CatalogueIsComplete(dir: seq<Entry>, p: nat)
    requires p < |dir|
    ensures Selection(dir, Catalogue(dir))
    ensures p in Catalogue(dir) <==> Usable(dir[p])
  {
    UsableRangeOrdered(dir, 0, |dir|);
    CatalogueSelects(dir);
    if Usable(dir[p]) {
      UsableIsFound(dir, 0, p);
      KindLosesNone(dir, AllUsable(dir), p);
    }
  }

  // -- The page in the server's bytes ----------------------------------------------------------

  predicate Showable(e: Entry) {
    (e.flags as bv8) & 0x04 == 0 && e.name !in [[], [46], [46, 46]] && |e.name| < 256
  }

  predicate Subdirectory(e: Entry) {
    (e.flags as bv8) & 0x01 != 0
  }

  /** Showable entries, those with bit 0 of their flags set first, in server order among equals. */
  ghost predicate ListInBits(dir: seq<Entry>, list: seq<nat>) {
    && (forall i :: 0 <= i < |list| ==> list[i] < |dir| && Showable(dir[list[i]]))
    && forall i, j :: 0 <= i < j < |list| ==>
         if Subdirectory(dir[list[i]]) == Subdirectory(dir[list[j]]) then list[i] < list[j] else Subdirectory(dir[list[i]])
  }

  /** The page's rows are the at most fifteen of `list` from `skip` on. */
  ghost predicate RowsInBits(dir: seq<Entry>, list: seq<nat>, skip: nat, region: seq<RawEntry>, count: nat, hasNext: bool)
    requires ListInBits(dir, list)
  {
    && count <= 15 <= |region| && (hasNext <==> |list| > skip + 15)
    && (if |list| >= skip + 15 then count == 15 else if |list| >= skip then count == |list| - skip else count == 0)
    && forall j :: 0 <= j < count ==>
         && region[j].name == dir[list[skip + j]].name
         && (region[j].isDir <==> Subdirectory(dir[list[skip + j]]))
  }

  /** A page of such a list; if `whole`, of the list of all showable entries. */
  ghost predicate PageInBits(dir: seq<Entry>, pageIndex: nat, region: seq<RawEntry>, count: nat, hasNext: bool, whole: bool) {
    exists list: seq<nat> ::
      && ListInBits(dir, list)
      && RowsInBits(dir, list, 15 * pageIndex % 0x1_0000_0000, region, count, hasNext)
      && (whole ==> forall p :: 0 <= p < |dir| && Showable(dir[p]) ==> p in list)
  }

  lemma EntryInBits(e: Entry)
    ensures Usable(e) <==> Showable(e)
    ensures e.Directory() <==> Subdirectory(e)
    ensures ToRaw(e).name == e.name && (ToRaw(e).isDir <==> Subdirectory(e))
  {
  }

  lemma SelectionInBits(dir: seq<Entry>, list: seq<nat>)
    requires Selection(dir, list)
    ensures ListInBits(dir, list)
  {
    hide Usable, Showable, Subdirectory, ToRaw;
    forall i | 0 <= i < |list| ensures list[i] < |dir| && Showable(dir[list[i]]) {
      EntryInBits(dir[list[i]]);
    }
    forall i, j | 0 <= i < j < |list|
      ensures if Subdirectory(dir[list[i]]) == Subdirectory(dir[list[j]]) then list[i] < list[j] else Subdirectory(dir[list[i]])
    {
      EntryInBits(dir[list[i]]);
      EntryInBits(dir[list[j]]);
      assert Before(dir, list[i], list[j]);
    }
  }

  lemma PageOfInBits(dir: seq<Entry>, list: seq<nat>, skip: nat, region: seq<RawEntry>, count: nat, hasNext: bool)
    requires Selection(dir, list) && PageOf(dir, list, skip, region, count, hasNext)
    ensures ListInBits(dir, list) && RowsInBits(dir, list, skip, region, count, hasNext)
  {
    SelectionInBits(dir, list);
    hide Usable, Showable, Subdirectory, ToRaw, Selection, ListInBits;
    forall j | 0 <= j < count
      ensures region[j].name == dir[list[skip + j]].name && (region[j].isDir <==> Subdirectory(dir[list[skip + j]]))
    {
      EntryInBits(dir[list[skip + j]]);
    }
  }

  /** The catalogue holds exactly the showable entries. */
  lemma CatalogueInBits(dir: seq<Entry>)
    ensures Selection(dir, Catalogue(dir))
    ensures forall p :: 0 <= p < |dir| ==> (p in Catalogue(dir) <==> Showable(dir[p]))
  {
    hide Usable, Showable, Subdirectory, ToRaw, Catalogue, Selection;
    CatalogueSelects(dir);
    forall p | 0 <= p < |dir| ensures p in Catalogue(dir) <==> Showable(dir[p]) {
      CatalogueIsComplete(dir, p);
      EntryInBits(dir[p]);
    }
  }
}
