/**
 * What a Fsfirst/Fsnext search owes its caller, and which handles the registry answers for: the
 * value-level definitions and lemmas behind module Dta (sidetnfs_probe.c, 4829-5536).
 */
module DtaSearch {
  import opened Words
  import opened Names
  import Wildcard
  import Wire
  import opened Tnfs
  import opened DtaTable

  const MAX_ROUNDS := 512
  const RETRIES := 2

  datatype SearchResult = Found(entry: AtariEntry) | NotFound | Error

  function Key(s: Search): Handle {
    (s.runtimeSlot, s.dirHandle)
  }

  /** What the server has not yet handed out on a handle. */
  function Rest(c: Cursor): seq<Entry>
    requires c.pos <= |c.dir|
  {
    c.dir[c.pos..]
  }

  /** The answer `r` accounts for everything between `before` and `after`. */
  ghost predicate Answers(r: SearchResult, before: seq<Entry>, after: seq<Entry>, pattern: seq<byte>, attribs: byte) {
    match r
    case Found(e) => Matches(before, pattern, attribs) == [e] + Matches(after, pattern, attribs)
    case NotFound => Matches(before, pattern, attribs) == []
    case Error => Matches(before, pattern, attribs) == Matches(after, pattern, attribs)
  }

  /** Every handle obtained is held by exactly one open search, or its close has been attempted. */
  ghost predicate LedgerOk(t: Table, tokens: seq<nat>, obtained: nat, closeTried: set<nat>, confirmed: set<nat>) {
    && |tokens| == |t|
    && (forall i :: 0 <= i < |t| && t[i].active ==> tokens[i] < obtained && tokens[i] !in confirmed)
    && (forall i, j :: 0 <= i < j < |t| && t[i].active && t[j].active ==> tokens[i] != tokens[j])
    && (forall k :: 0 <= k < obtained ==> k in closeTried || Held(t, tokens, k))
    && confirmed <= closeTried && (forall k :: k in closeTried ==> k < obtained)
  }

  ghost predicate Held(t: Table, tokens: seq<nat>, k: nat)
    requires |tokens| == |t|
  {
    exists i :: 0 <= i < |t| && t[i].active && tokens[i] == k
  }

  /** Between calls a search is open exactly when its handle is. */
  ghost predicate Agrees(t: Table) {
    forall i :: 0 <= i < |t| ==> (t[i].active <==> t[i].handleValid) && CString(t[i].pattern)
  }

  /** The server still knows every handle an open search holds, and no two searches share one. */
  ghost predicate Live(t: Table, open: map<Handle, Cursor>) {
    && (forall i :: 0 <= i < |t| && t[i].active ==> Key(t[i]) in open)
    && (forall i, j :: 0 <= i < j < |t| && t[i].active && t[j].active ==> Key(t[i]) != Key(t[j]))
  }

  predicate OnPath(s: Search, slot: int, path: seq<byte>) {
    s.active && s.runtimeSlot == slot && s.path == path
  }

  function CountOnPath(t: Table, slot: int, path: seq<byte>): nat {
    if t == [] then 0
    else CountOnPath(t[..|t| - 1], slot, path) + if OnPath(t[|t| - 1], slot, path) then 1 else 0
  }

  /** Only searches on this slot and path may have been dropped, and nothing else has changed. */
  ghost predicate Closed(t: Table, t': Table, slot: int, path: seq<byte>) {
    && |t'| == |t|
    && forall k :: 0 <= k < |t| ==>
         t'[k] == t[k] || (OnPath(t[k], slot, path) && t'[k] == t[k].(active := false, handleValid := false))
  }

  /** Only handles of searches on this slot and path may have been closed. */
  ghost predicate ClosesOnly(t: Table, open: map<Handle, Cursor>, open': map<Handle, Cursor>, slot: int, path: seq<byte>) {
    && open'.Keys <= open.Keys
    && (forall h :: h in open' ==> open'[h] == open[h])
    && forall h :: h in open && h !in open' ==> exists k :: 0 <= k < |t| && OnPath(t[k], slot, path) && Key(t[k]) == h
  }

  /** The first `i` slots have been looked at. */
  ghost predicate Swept(t: Table, open: map<Handle, Cursor>, t': Table, open': map<Handle, Cursor>,
                        i: nat, slot: int, path: seq<byte>, allOk: bool, matches: nat) {
    && i <= |t| && Closed(t, t', slot, path) && ClosesOnly(t, open, open', slot, path)
    && (forall k :: i <= k < |t| ==> t'[k] == t[k])
    && (Live(t, open) ==> forall k :: i <= k < |t| && t[k].active ==> Key(t[k]) in open')
    && matches == CountOnPath(t[..i], slot, path)
    && (allOk <==> forall k :: 0 <= k < i ==> !OnPath(t'[k], slot, path))
  }

  lemma SweptNone(t: Table, open: map<Handle, Cursor>, slot: int, path: seq<byte>)
    ensures Swept(t, open, t, open, 0, slot, path, true, 0)
  {
    assert t[..0] == [];
  }

  lemma OnPathFacts(s: Search, slot: int, path: seq<byte>)
    ensures OnPath(s, slot, path) <==> s.active && s.runtimeSlot == slot && s.path == path
  {
  }

  lemma SweptOther(t: Table, open: map<Handle, Cursor>, t1: Table, open1: map<Handle, Cursor>,
                   i: nat, slot: int, path: seq<byte>, allOk: bool, matches: nat)
    requires i < |t| && Swept(t, open, t1, open1, i, slot, path, allOk, matches) && !OnPath(t1[i], slot, path)
    ensures Swept(t, open, t1, open1, i + 1, slot, path, allOk, matches)
  {
    hide ClosesOnly;
    assert t[..i + 1][..i] == t[..i];
  }

  lemma SweptOne(t: Table, open: map<Handle, Cursor>, t1: Table, open1: map<Handle, Cursor>, t2: Table, open2: map<Handle, Cursor>,
                 i: nat, slot: int, path: seq<byte>, allOk: bool, matches: nat, closed: bool)
    requires i < |t| && Swept(t, open, t1, open1, i, slot, path, allOk, matches) && OnPath(t1[i], slot, path)
    requires t2 == if closed then t1[i := t1[i].(active := false, handleValid := false)] else t1
    requires open2 == open1 || open2 == open1 - {Key(t1[i])}
    ensures Swept(t, open, t2, open2, i + 1, slot, path, allOk && closed, matches + 1)
  {
    assert t[..i + 1][..i] == t[..i];
  }

  /** The handle whose turn it is has not been closed under another search's name. */
  lemma SweptStillOpen(t: Table, open: map<Handle, Cursor>, t1: Table, open1: map<Handle, Cursor>,
                       i: nat, slot: int, path: seq<byte>, allOk: bool, matches: nat)
    requires i < |t| && Swept(t, open, t1, open1, i, slot, path, allOk, matches) && t1[i].active
    ensures Live(t, open) ==> Key(t1[i]) in open1
  {
    hide Closed, ClosesOnly, Live, CountOnPath;
  }

  lemma SweptAll(t: Table, open: map<Handle, Cursor>, t': Table, open': map<Handle, Cursor>,
                 slot: int, path: seq<byte>, allOk: bool, matches: nat)
    requires Swept(t, open, t', open', |t|, slot, path, allOk, matches)
    ensures matches == CountOnPath(t, slot, path) && Closed(t, t', slot, path) && ClosesOnly(t, open, open', slot, path)
    ensures allOk <==> forall k :: 0 <= k < |t'| ==> !OnPath(t'[k], slot, path)
    ensures allOk && Live(t, open) ==> Live(t', open')
  {
    assert t[..|t|] == t;
  }

  lemma SlotOf(t: Table, n: dword)
    ensures Registered(t, n) <==> Find(t, n) < |t|
    ensures Find(t, n) < |t| ==> t[Find(t, n)].active && t[Find(t, n)].ndta == n
  {
  }

  lemma AfterUseFacts(l: seq<dword>, n: dword)
    ensures forall r: SearchResult :: r.Found? ==> AfterUse(l, n, r) == Without(l, n) + [n]
    ensures forall r: SearchResult :: !r.Found? ==> AfterUse(l, n, r) == Without(Without(l, n) + [n], n)
  {
    WithoutMembers(l, n);
    WithoutAppend(Without(l, n), n);
  }

  /**
   * What an answer says about the search when nothing was lost: NOT_FOUND means that nothing was
   * owed, before a stretch without an answer the search gives up, and if `calm`, only there.
   */
  ghost predicate Tells(r: SearchResult, t: Table, open: map<Handle, Cursor>, n: dword, calm: bool) {
    && (Clean(t, open, n) && r.NotFound? ==> Owed(t, open, n) == [] && forall p :: !Blocked(t, open, n, p))
    && (Hopeless(t, open, n) ==> r.Error?)
    && (calm && r.Error? ==> Tired(t, open, n))
  }

  lemma PaysTells(r: SearchResult, t: Table, open: map<Handle, Cursor>, t': Table, open': map<Handle, Cursor>, n: dword, lost: nat, calm: bool)
    requires Pays(r, t, open, t', open', n, lost, lost) && (calm && r.Error? ==> Tired(t, open, n))
    ensures Tells(r, t, open, n, calm)
  {
    hide Clean, Blocked, Tired, Owed, DenseFor;
  }

  lemma TellsLess(r: SearchResult, t: Table, open: map<Handle, Cursor>, n: dword, calm: bool, calm': bool)
    requires Tells(r, t, open, n, calm) && (calm' ==> calm)
    ensures Tells(r, t, open, n, calm')
  {
  }

  lemma LeftDecreases(r: SearchResult, t: Table, open: map<Handle, Cursor>, t': Table, open': map<Handle, Cursor>,
                      n: dword, lost: nat, lost': nat)
    requires Pays(r, t, open, t', open', n, lost, lost') && r.Found?
    ensures Left(t', open', n) < Left(t, open, n)
  {
  }

  lemma StaysIs(r: SearchResult, pattern: seq<byte>)
    ensures Stays(r, pattern) <==> r.Found? && (STAR in pattern || QUERY in pattern)
  {
  }

  lemma WildStays(r: SearchResult, pattern: seq<byte>)
    requires STAR in pattern || QUERY in pattern
    ensures Stays(r, pattern) <==> r.Found?
  {
  }

  /** A listing in progress: what was collected, the answer in hand and what is owed make up the whole. */
  ghost predicate Listing(r: SearchResult, all: seq<AtariEntry>, dir: seq<Entry>, pattern: seq<byte>, attribs: byte,
                          t: Table, open: map<Handle, Cursor>, n: dword) {
    match r
    case Found(e) =>
      && Clean(t, open, n) && Matches(dir, pattern, attribs) == all + [e] + Owed(t, open, n)
      && Foresees(dir, pattern, attribs, t, open, n)
    case NotFound => Matches(dir, pattern, attribs) == all && Listable(dir, pattern, attribs)
    case Error => all <= Matches(dir, pattern, attribs)
  }

  lemma ListingStarts(r: SearchResult, dir: seq<Entry>, cut: seq<byte>, attribs: byte, t: Table, open: map<Handle, Cursor>, n: dword,
                      pattern: seq<byte>, calm: bool)
    requires FirstAnswer(r, dir, cut, attribs, t, open, n, pattern, calm) && (Stays(r, pattern) <==> r.Found?)
    ensures Listing(r, [], dir, cut, attribs, t, open, n)
    ensures calm && Dense(dir, cut, attribs) ==> !r.Error?
  {
    hide Clean, Owed, Foresees, Matches, Stretch, OnTheEdge;
    if r.Found? { assert [] + [r.entry] + Owed(t, open, n) == Matches(dir, cut, attribs); }
  }

  lemma ListingIsRoomy(e: SearchResult, all: seq<AtariEntry>, dir: seq<Entry>, pattern: seq<byte>, attribs: byte,
                       t: Table, open: map<Handle, Cursor>, n: dword)
    requires e.Found? && Listing(e, all, dir, pattern, attribs, t, open, n) && AnswersFit(dir, 1)
    ensures RoomyFor(t, open, n)
  {
    hide Clean, Owed, Dense, Stretch, Matches, RoomyFor, AnswersFit;
  }

  lemma ListingGoesOn(e: SearchResult, r: SearchResult, all: seq<AtariEntry>, dir: seq<Entry>, pattern: seq<byte>, attribs: byte,
                      t: Table, open: map<Handle, Cursor>, t': Table, open': map<Handle, Cursor>, n: dword, lost: nat, calm: bool)
    requires e.Found? && Listing(e, all, dir, pattern, attribs, t, open, n)
    requires r.Found? ==> Pays(r, t, open, t', open', n, lost, lost)
    requires Tells(r, t, open, n, calm)
    ensures Listing(r, all + [e.entry], dir, pattern, attribs, t', open', n)
    ensures calm && Dense(dir, pattern, attribs) ==> !r.Error?
  {
    hide Clean, Owed, DenseFor, RoomyFor, Blocked, Matches, Stretch, Dense, Tired, AnswersFit;
    if Dense(dir, pattern, attribs) { DenseNeverTires(t, open, n); }
    if r.Found? {
      assert all + [e.entry] + [r.entry] + Owed(t', open', n) == all + [e.entry] + ([r.entry] + Owed(t', open', n));
    }
  }

  lemma ListingEnds(r: SearchResult, all: seq<AtariEntry>, dir: seq<Entry>, pattern: seq<byte>, attribs: byte,
                    t: Table, open: map<Handle, Cursor>, n: dword)
    requires Listing(r, all, dir, pattern, attribs, t, open, n) && !r.Found?
    ensures all <= Matches(dir, pattern, attribs)
    ensures r.NotFound? ==> all == Matches(dir, pattern, attribs) && Listable(dir, pattern, attribs)
  {
  }

  /** Where Fsnext leaves a search in the recency list. */
  function AfterUse(l: seq<dword>, n: dword, r: SearchResult): seq<dword> {
    if r.Found? then Without(l, n) + [n] else Without(l, n)
  }

  lemma KeepsOpen(t: Table, open: map<Handle, Cursor>, open': map<Handle, Cursor>, n: dword)
    requires forall k :: k in open ==> k in open' && open'[k] == open[k]
    ensures Keeps(t, open, t, open', n)
  {
  }

  lemma KeyOf(s: Search, h: byte)
    ensures Key(s.(dirHandle := h)) == (s.runtimeSlot, h)
  {
  }

  lemma InsertKeeps(t: Table, open: map<Handle, Cursor>, open1: map<Handle, Cursor>, i: nat, t': Table, open': map<Handle, Cursor>)
    requires i < |t| == |t'| && Distinct(t) && Distinct(t') && t'[i].active
    requires forall k :: 0 <= k < |t| && k != i ==> t'[k] == t[k]
    requires forall k :: k in open ==> k in open1 && open1[k] == open[k]
    requires Key(t'[i]) !in open && Key(t'[i]) in open1
    requires open' == open1 || (t[i].active && open' == open1 - {Key(t[i])})
    ensures Keeps(t, open, t', open', t'[i].ndta)
  {
    hide Keeps;
    assert t' == t[i := t'[i]];
    KeepsSlot(t, open, i, t'[i], open', t'[i].ndta);
  }

  lemma InsertClean(t: Table, open: map<Handle, Cursor>, open1: map<Handle, Cursor>, i: nat, t': Table, open': map<Handle, Cursor>)
    requires i < |t| == |t'| && Distinct(t') && t'[i].active && !t'[i].eof
    requires Keeps(t, open, t', open', t'[i].ndta)
    requires Key(t'[i]) !in open && Key(t'[i]) in open1 && open1[Key(t'[i])].intact && open1[Key(t'[i])].pos == 0
    requires open' == open1 || (t[i].active && open' == open1 - {Key(t[i])})
    ensures Live(t, open) ==> Clean(t', open', t'[i].ndta) && open'[Key(t'[i])] == open1[Key(t'[i])]
  {
    FindIs(t', i);
  }

  lemma FindKeeps(t: Table, open: map<Handle, Cursor>, i: nat, t': Table, open': map<Handle, Cursor>, lost: nat, lost': nat)
    requires i < |t| == |t'| && t' == t[i := t'[i]] && Distinct(t) && Distinct(t') && t[i].active
    requires t'[i] == t[i].(lastTouched := t'[i].lastTouched, eof := t'[i].eof)
    requires ReadsOnly(Key(t[i]), open, open', lost, lost')
    ensures Keeps(t, open, t', open', t[i].ndta) && Registered(t', t[i].ndta)
  {
    hide Keeps;
    FindIs(t', i);
    KeepsSlot(t, open, i, t'[i], open', t[i].ndta);
  }

  /** How much of its directory a search has still to read. */
  ghost function Left(t: Table, open: map<Handle, Cursor>, n: dword): nat {
    if Registered(t, n) && Key(t[Find(t, n)]) in open then
      var c := open[Key(t[Find(t, n)])];
      if c.pos <= |c.dir| then |c.dir| - c.pos else 0
    else 0
  }

  /** From `p` on, as many entries in a row as a search has rounds, and none of them is an answer. */
  ghost predicate Stretch(dir: seq<Entry>, p: nat, pattern: seq<byte>, attribs: byte) {
    p + 512 <= |dir| && Matches(dir[p..p + 512], pattern, attribs) == []
  }

  /** No 512 entries in a row are without an answer. */
  ghost predicate Listable(dir: seq<Entry>, pattern: seq<byte>, attribs: byte) {
    forall p: nat :: !Stretch(dir, p, pattern, attribs)
  }

  const LAST := MAX_ROUNDS - 1

  /** At `p` exactly 511 entries are left, and none of them is an answer. */
  ghost predicate OnTheEdge(dir: seq<Entry>, p: nat, pattern: seq<byte>, attribs: byte) {
    |dir| == p + 511 && Matches(dir[p..], pattern, attribs) == []
  }

  /**
   * Listable, and the last 511 entries are not all without an answer: for those the 512 rounds are
   * enough only if the server flags EOF together with the very last entry.
   */
  ghost predicate Dense(dir: seq<Entry>, pattern: seq<byte>, attribs: byte) {
    Listable(dir, pattern, attribs) && forall p: nat :: !OnTheEdge(dir, p, pattern, attribs)
  }

  /** The search `n` runs in a directory that is dense for it. */
  ghost predicate DenseFor(t: Table, open: map<Handle, Cursor>, n: dword)
    requires Clean(t, open, n)
  {
    var s := t[Find(t, n)];
    Dense(open[Key(s)].dir, s.pattern, s.attribs)
  }

  /** A stretch without an answer begins at or after the entry the search reads next. */
  ghost predicate Blocked(t: Table, open: map<Handle, Cursor>, n: dword, p: nat) {
    && Clean(t, open, n)
    && var s := t[Find(t, n)];
       open[Key(s)].pos <= p && Stretch(open[Key(s)].dir, p, s.pattern, s.attribs)
  }

  /** A stretch without an answer begins with the entry the search reads next. */
  ghost predicate Hopeless(t: Table, open: map<Handle, Cursor>, n: dword) {
    Clean(t, open, n) && Blocked(t, open, n, open[Key(t[Find(t, n)])].pos)
  }

  /** If nothing was lost, the search stood before a stretch without an answer, or on the edge. */
  ghost predicate Tired(t: Table, open: map<Handle, Cursor>, n: dword) {
    Clean(t, open, n) && !Hopeless(t, open, n) ==>
      var s := t[Find(t, n)];
      OnTheEdge(open[Key(s)].dir, open[Key(s)].pos, s.pattern, s.attribs)
  }

  lemma DenseNeverTires(t: Table, open: map<Handle, Cursor>, n: dword)
    requires Clean(t, open, n) && DenseFor(t, open, n)
    ensures !Tired(t, open, n)
  {
    hide Find, Live, Stretch, OnTheEdge;
  }

  /** Every entry behind this handle, sent alone, fits the receive buffer. */
  ghost predicate Roomy(key: Handle, open: map<Handle, Cursor>) {
    key in open ==> AnswersFit(open[key].dir, 1)
  }

  lemma RoomyIs(key: Handle, open: map<Handle, Cursor>, sent: seq<Entry>, open': map<Handle, Cursor>)
    requires Roomy(key, open)
    requires key in open ==> AdvancedBy(open, open', key, sent) && |sent| <= 1
    requires key !in open ==> sent == []
    ensures FitsBuffer(sent)
  {
    hide FitsBuffer, AnswersFit;
    NothingFits();
    if key in open { SentFits(open, open', key, sent, 1); }
  }

  lemma StaysRoomy(key: Handle, was: map<Handle, Cursor>, now: map<Handle, Cursor>, lost: nat, lost': nat)
    requires ReadsOnly(key, was, now, lost, lost') && Roomy(key, was)
    ensures Roomy(key, now)
  {
    hide AnswersFit;
  }

  /** Every entry of the directory the search `n` runs in fits the buffer when it is sent alone. */
  ghost predicate RoomyFor(t: Table, open: map<Handle, Cursor>, n: dword) {
    Registered(t, n) ==> Roomy(Key(t[Find(t, n)]), open)
  }

  lemma RoomyForSlot(t: Table, open: map<Handle, Cursor>, i: nat)
    requires i < |t| && t[i].active && Distinct(t)
    ensures RoomyFor(t, open, t[i].ndta) ==> Roomy(Key(t[i]), open)
  {
    FindIs(t, i);
  }

  lemma FreshIsRoomy(t: Table, open: map<Handle, Cursor>, i: nat, dir: seq<Entry>)
    requires i < |t| && Fresh(t, open, i, dir) && AnswersFit(dir, 1)
    ensures Roomy(Key(t[i]), open)
  {
    hide AnswersFit;
  }

  /** What is known of the whole directory holds of what the search still has to read. */
  ghost predicate Foresees(dir: seq<Entry>, pattern: seq<byte>, attribs: byte, t: Table, open: map<Handle, Cursor>, n: dword)
    requires Clean(t, open, n)
  {
    && (Dense(dir, pattern, attribs) ==> DenseFor(t, open, n))
    && (AnswersFit(dir, 1) ==> RoomyFor(t, open, n))
    && forall p: nat :: Stretch(dir, p, pattern, attribs) ==> Blocked(t, open, n, p)
  }

  lemma {:induction false} MatchesAppend(a: seq<Entry>, b: seq<Entry>, pattern: seq<byte>, attribs: byte)
    ensures Matches(a + b, pattern, attribs) == Matches(a, pattern, attribs) + Matches(b, pattern, attribs)
  {
    hide Wanted;
    if a == [] {
      assert a + b == b;
    } else {
      assert (a + b)[1..] == a[1..] + b;
      MatchesAppend(a[1..], b, pattern, attribs);
    }
  }

  lemma MatchAmong(es: seq<Entry>, k: nat, pattern: seq<byte>, attribs: byte)
    requires k < |es| && Matches([es[k]], pattern, attribs) != []
    ensures Matches(es, pattern, attribs) != []
  {
    hide Matches;
    assert es == es[..k] + ([es[k]] + es[k + 1..]);
    MatchesAppend(es[..k], [es[k]] + es[k + 1..], pattern, attribs);
    MatchesAppend([es[k]], es[k + 1..], pattern, attribs);
  }

  lemma NothingSkipped(dir: seq<Entry>, a: nat, b: nat, pattern: seq<byte>, attribs: byte)
    requires a <= b <= |dir| && Matches(dir[a..], pattern, attribs) == Matches(dir[b..], pattern, attribs)
    ensures Matches(dir[a..b], pattern, attribs) == []
  {
    hide Matches;
    assert dir[a..] == dir[a..b] + dir[b..];
    MatchesAppend(dir[a..b], dir[b..], pattern, attribs);
  }

  lemma NothingInPart(dir: seq<Entry>, a: nat, b: nat, c: nat, pattern: seq<byte>, attribs: byte)
    requires a <= b <= c <= |dir| && Matches(dir[a..c], pattern, attribs) == []
    ensures Matches(dir[a..b], pattern, attribs) == []
  {
    hide Matches;
    assert dir[a..c] == dir[a..b] + dir[b..c];
    MatchesAppend(dir[a..b], dir[b..c], pattern, attribs);
  }

  /** All rounds were used up: the search got 512 entries further, or 511 and to a flagged end. */
  lemma GapFound(c: Cursor, c': Cursor, eof: bool, pattern: seq<byte>, attribs: byte)
    requires c'.dir == c.dir && c.pos <= c'.pos <= |c.dir|
    requires c'.pos + (if eof then 1 else 0) >= c.pos + MAX_ROUNDS && (eof ==> c'.pos == |c.dir|)
    requires Matches(Rest(c), pattern, attribs) == Matches(Rest(c'), pattern, attribs)
    ensures Stretch(c.dir, c.pos, pattern, attribs) || OnTheEdge(c.dir, c.pos, pattern, attribs)
  {
    hide Matches;
    NothingSkipped(c.dir, c.pos, c'.pos, pattern, attribs);
    if c'.pos >= c.pos + MAX_ROUNDS {
      NothingInPart(c.dir, c.pos, c.pos + MAX_ROUNDS, c'.pos, pattern, attribs);
    } else {
      assert c.dir[c.pos..c'.pos] == c.dir[c.pos..];
    }
  }

  /** No search gets past a stretch without an answer. */
  lemma StretchHolds(r: SearchResult, c: Cursor, c': Cursor, p: nat, pattern: seq<byte>, attribs: byte)
    requires c'.dir == c.dir && c.pos <= c'.pos <= |c.dir| && c'.pos <= c.pos + MAX_ROUNDS
    requires r.Found? ==> c'.pos > 0 && Matches([c.dir[c'.pos - 1]], pattern, attribs) == [r.entry]
    requires r.NotFound? ==> c'.pos == |c.dir| <= c.pos + LAST
    requires c.pos <= p && Stretch(c.dir, p, pattern, attribs)
    ensures !r.NotFound? && (r.Found? ==> c'.pos <= p)
  {
    hide Matches;
    if r.Found? && c'.pos > p {
      var es := c.dir[p..p + MAX_ROUNDS];
      assert es[c'.pos - 1 - p] == c.dir[c'.pos - 1];
      MatchAmong(es, c'.pos - 1 - p, pattern, attribs);
    }
  }

  lemma FindTires(t: Table, open: map<Handle, Cursor>, i: nat, t': Table, open': map<Handle, Cursor>, lost: nat)
    requires i < |t| == |t'| && Distinct(t) && t[i].active
    requires Outcome(Error, t[i], t'[i], open, open', lost, lost, true)
    requires t'[i] == t[i].(lastTouched := t'[i].lastTouched, eof := t'[i].eof)
    ensures Tired(t, open, t[i].ndta)
  {
    FindIs(t, i);
    hide Matches, Find, Distinct, Stretch, OnTheEdge, Live;
    if Clean(t, open, t[i].ndta) {
      GapFound(open[Key(t[i])], open'[Key(t[i])], t'[i].eof, t[i].pattern, t[i].attribs);
    }
  }

  /** A search that has just been opened on `dir`. */
  ghost predicate Fresh(t: Table, open: map<Handle, Cursor>, i: nat, dir: seq<Entry>)
    requires i < |t|
  {
    Clean(t, open, t[i].ndta) && Key(t[i]) in open && open[Key(t[i])] == Cursor(dir, 0, true)
  }

  /** Fsfirst reads from the beginning. */
  lemma TiredAtStart(t: Table, open: map<Handle, Cursor>, i: nat, dir: seq<Entry>)
    requires i < |t| && t[i].active && Distinct(t) && Fresh(t, open, i, dir)
    ensures Tired(t, open, t[i].ndta) ==> Stretch(dir, 0, t[i].pattern, t[i].attribs) || OnTheEdge(dir, 0, t[i].pattern, t[i].attribs)
  {
    hide Stretch, OnTheEdge;
    FindIs(t, i);
  }

  /** The answer `r` pays what the search owed: the next entry, or the fact that there is none. */
  ghost predicate Pays(r: SearchResult, t: Table, open: map<Handle, Cursor>, t': Table, open': map<Handle, Cursor>,
                       n: dword, lost: nat, lost': nat) {
    && (r.Found? ==> Left(t', open', n) < Left(t, open, n))
    && (Clean(t, open, n) && lost' == lost ==>
          && Clean(t', open', n)
          && (DenseFor(t, open, n) ==> DenseFor(t', open', n))
          && (RoomyFor(t, open, n) ==> RoomyFor(t', open', n))
          && (Hopeless(t, open, n) ==> r.Error?)
          && (forall p: nat :: Blocked(t, open, n, p) ==> r.Error? || (r.Found? && Blocked(t', open', n, p)))
          && match r
             case Found(e) => Owed(t, open, n) == [e] + Owed(t', open', n)
             case NotFound => Owed(t, open, n) == []
             case Error => Owed(t, open, n) == Owed(t', open', n))
  }

  lemma FindBlocks(r: SearchResult, t: Table, open: map<Handle, Cursor>, i: nat, t': Table, open': map<Handle, Cursor>, lost: nat,
                   p: nat, calm: bool)
    requires i < |t| == |t'| && Distinct(t) && Distinct(t') && t[i].active
    requires t'[i] == t[i].(lastTouched := t'[i].lastTouched, eof := t'[i].eof)
    requires Clean(t', open', t[i].ndta) && Blocked(t, open, t[i].ndta, p)
    requires Outcome(r, t[i], t'[i], open, open', lost, lost, calm)
    ensures r.Error? || (r.Found? && Blocked(t', open', t[i].ndta, p) && open[Key(t[i])].pos < p)
  {
    hide Matches, Find, Distinct, Answers, Live, Stretch;
    FindIs(t, i);
    FindIs(t', i);
    StretchHolds(r, open[Key(t[i])], open'[Key(t[i])], p, t[i].pattern, t[i].attribs);
  }

  lemma FindPays(r: SearchResult, t: Table, open: map<Handle, Cursor>, i: nat, t': Table, open': map<Handle, Cursor>,
                 lost: nat, lost': nat, calm: bool)
    requires i < |t| == |t'| && Distinct(t) && Distinct(t') && t[i].active
    requires t'[i] == t[i].(lastTouched := t'[i].lastTouched, eof := t'[i].eof)
    requires Keeps(t, open, t', open', t[i].ndta)
    requires Outcome(r, t[i], t'[i], open, open', lost, lost', calm)
    ensures Pays(r, t, open, t', open', t[i].ndta, lost, lost')
  {
    hide Matches, Find, Distinct, Dense, Stretch, Blocked, AnswersFit;
    FindIs(t, i);
    FindIs(t', i);
    if Clean(t, open, t[i].ndta) && lost' == lost {
      forall p: nat | Blocked(t, open, t[i].ndta, p) ensures r.Error? || (r.Found? && Blocked(t', open', t[i].ndta, p)) {
        FindBlocks(r, t, open, i, t', open', lost, p, calm);
      }
      if Hopeless(t, open, t[i].ndta) { FindBlocks(r, t, open, i, t', open', lost, open[Key(t[i])].pos, calm); }
    }
  }

  /** What Fsfirst's answer says about the whole directory. */
  ghost predicate FirstAnswer(r: SearchResult, dir: seq<Entry>, cut: seq<byte>, attribs: byte,
                              t: Table, open: map<Handle, Cursor>, n: dword, pattern: seq<byte>, calm: bool) {
    var all := Matches(dir, cut, attribs);
    match r
    case Found(e) =>
      && all != [] && all[0] == e && !Stretch(dir, 0, cut, attribs)
      && (Stays(r, pattern) ==> Clean(t, open, n) && all == [e] + Owed(t, open, n) && Foresees(dir, cut, attribs, t, open, n))
    case NotFound => all == [] && Listable(dir, cut, attribs)
    case Error => calm ==> Stretch(dir, 0, cut, attribs) || OnTheEdge(dir, 0, cut, attribs)
  }

  /** The first answer of the search just opened in slot `i`, if nothing was lost. */
  ghost predicate FirstSays(r: SearchResult, t: Table, open: map<Handle, Cursor>, i: nat, dir: seq<Entry>,
                            t': Table, open': map<Handle, Cursor>, pattern: seq<byte>, lost: nat, lost': nat, calm: bool)
    requires i < |t|
  {
    Fresh(t, open, i, dir) && lost' == lost ==>
      FirstAnswer(r, dir, t[i].pattern, t[i].attribs, t', open', t[i].ndta, pattern, calm)
  }

  lemma FirstSaysFacts(r: SearchResult, t: Table, open: map<Handle, Cursor>, i: nat, dir: seq<Entry>,
                       t': Table, open': map<Handle, Cursor>, pattern: seq<byte>, lost: nat, lost': nat, calm: bool)
    requires i < |t| && FirstSays(r, t, open, i, dir, t', open', pattern, lost, lost', calm)
    requires Fresh(t, open, i, dir) && lost' == lost
    ensures FirstAnswer(r, dir, t[i].pattern, t[i].attribs, t', open', t[i].ndta, pattern, calm)
  {
  }

  lemma FirstPays(r: SearchResult, t: Table, open: map<Handle, Cursor>, i: nat, t': Table, open': map<Handle, Cursor>,
                  dir: seq<Entry>, lost: nat, lost': nat, t2: Table, open2: map<Handle, Cursor>, pattern: seq<byte>, calm: bool)
    requires i < |t| && t[i].active && Distinct(t)
    requires Pays(r, t, open, t', open', t[i].ndta, lost, lost') && (lost' == lost ==> Tells(r, t, open, t[i].ndta, calm))
    requires Stays(r, pattern) ==> t2 == t' && open2 == open'
    ensures FirstSays(r, t, open, i, dir, t2, open2, pattern, lost, lost', calm)
  {
    if Fresh(t, open, i, dir) && lost' == lost {
      TiredAtStart(t, open, i, dir);
      hide Matches, Clean, Dense, Stretch, Tired, OnTheEdge, AnswersFit;
      FindIs(t, i);
      assert dir[0..] == dir;
      assert forall p: nat :: Stretch(dir, p, t[i].pattern, t[i].attribs) ==> Blocked(t, open, t[i].ndta, p);
    }
  }

  lemma ReleaseKeeps(t: Table, open: map<Handle, Cursor>, t': Table, open': map<Handle, Cursor>, n: dword)
    requires Distinct(t) && Distinct(t') && Registered(t, n)
    requires t' == t[Find(t, n) := t[Find(t, n)].(active := false, handleValid := false)]
    requires open' == open || open' == open - {Key(t[Find(t, n)])}
    ensures Keeps(t, open, t', open', n)
  {
    hide Keeps;
    var i := Find(t, n);
    KeepsSlot(t, open, i, t'[i], open', n);
  }

  lemma CutIsCString(pattern: seq<byte>)
    requires CString(pattern)
    ensures CString(CutPattern(pattern))
  {
  }

  lemma {:induction false} WithoutAppend(l: seq<dword>, n: dword)
    requires n !in l
    ensures Without(l + [n], n) == l
  {
    if l == [] {
      assert (l + [n])[1..] == [];
    } else {
      assert (l + [n])[1..] == l[1..] + [n];
      WithoutAppend(l[1..], n);
    }
  }

  /** Touching the search just inserted does not move it. */
  lemma LruInsertTouch(l: seq<dword>, n: dword)
    ensures Without(LruInsert(l, n), n) + [n] == LruInsert(l, n)
  {
    var rest := Without(l, n);
    WithoutMembers(l, n);
    assert n !in rest;
    var kept := if |rest| < DTA_SLOTS then rest else rest[1..];
    forall k | 0 <= k < |kept| ensures kept[k] != n { assert kept[k] in rest; }
    WithoutAppend(kept, n);
  }

  /** A search used once, and then kept or dropped. */
  function Settled(l: seq<dword>, n: dword, keep: bool): seq<dword> {
    var used := Without(l, n) + [n];
    if keep then used else Without(used, n)
  }

  lemma SettledIs(l: seq<dword>, n: dword, keep: bool)
    ensures keep ==> Settled(l, n, keep) == Without(l, n) + [n]
    ensures !keep ==> Settled(l, n, keep) == Without(Without(l, n) + [n], n)
  {
  }

  lemma SettledAfterInsert(l: seq<dword>, n: dword, keep: bool)
    ensures Settled(LruInsert(l, n), n, keep) == if keep then LruInsert(l, n) else Without(LruInsert(l, n), n)
  {
    LruInsertTouch(l, n);
  }

  const PATTERN_MAX := PATTERN_SIZE - 1

  /** What the registry's buffers keep of the caller's strings. */
  function CutPath(path: seq<byte>): seq<byte> {
    if |path| < MAX_FOLDER_LENGTH then path else path[..MAX_FOLDER_LENGTH - 1]
  }

  function CutPattern(pattern: seq<byte>): seq<byte> {
    if |pattern| <= PATTERN_MAX then pattern else pattern[..PATTERN_MAX]
  }

  /** The buffers hold 127 and 12 characters. */
  lemma CutsByNumber(path: seq<byte>, pattern: seq<byte>)
    ensures CutPath(path) <= path && |CutPath(path)| == Least(|path|, 127)
    ensures CutPattern(pattern) <= pattern && |CutPattern(pattern)| == Least(|pattern|, 12)
  {
  }

  function Least(a: nat, b: nat): nat {
    if a < b then a else b
  }

  lemma StarDotStarIsKept(pattern: seq<byte>)
    ensures pattern == [42, 46, 42] ==> CutPattern(pattern) == pattern
  {
  }

  /** After Fsfirst a search stays open only if it found something and its pattern has a wildcard. */
  predicate Stays(r: SearchResult, pattern: seq<byte>) {
    r.Found? && (42 in pattern || 63 in pattern)
  }

  /** A search from which nothing has been lost. */
  ghost predicate Clean(t: Table, open: map<Handle, Cursor>, n: dword) {
    && Registered(t, n) && Live(t, open)
    && var s := t[Find(t, n)];
       Key(s) in open && open[Key(s)].intact && open[Key(s)].pos <= |open[Key(s)].dir| && EofTrue(s, open)
  }

  /** The answers a search still owes its caller. */
  ghost function Owed(t: Table, open: map<Handle, Cursor>, n: dword): seq<AtariEntry>
    requires Clean(t, open, n)
  {
    var s := t[Find(t, n)];
    Matches(Rest(open[Key(s)]), s.pattern, s.attribs)
  }

  /** What every operation on `n` leaves of the other searches: their records and their handles. */
  ghost predicate Keeps(t: Table, open: map<Handle, Cursor>, t': Table, open': map<Handle, Cursor>, n: dword) {
    && (forall m: dword :: m != n && Registered(t', m) ==> Registered(t, m) && t'[Find(t', m)] == t[Find(t, m)])
    && (Live(t, open) ==>
          && Live(t', open')
          && forall m: dword :: m != n && Registered(t', m) && Key(t'[Find(t', m)]) in open && Key(t'[Find(t', m)]) in open' ==>
               open'[Key(t'[Find(t', m)])] == open[Key(t'[Find(t', m)])])
  }

  lemma KeepsChain(t: Table, open: map<Handle, Cursor>, t1: Table, open1: map<Handle, Cursor>,
                   t2: Table, open2: map<Handle, Cursor>, n: dword)
    requires Keeps(t, open, t1, open1, n) && Keeps(t1, open1, t2, open2, n)
    ensures Keeps(t, open, t2, open2, n)
  {
  }

  /** A search that is kept owes what it owed before. */
  lemma KeptSearchesOweTheSame(t: Table, open: map<Handle, Cursor>, t': Table, open': map<Handle, Cursor>, n: dword, m: dword)
    requires Keeps(t, open, t', open', n) && m != n && Registered(t', m) && Clean(t, open, m)
    ensures Clean(t', open', m) && Owed(t', open', m) == Owed(t, open, m)
  {
  }

  /** One slot changes: the search in it was or becomes `n`'s, or it made room for `n`. */
  lemma KeepsSlot(t: Table, open: map<Handle, Cursor>, i: nat, x: Search, open': map<Handle, Cursor>, n: dword)
    requires i < |t| && Distinct(t) && Distinct(t[i := x]) && (x.active ==> x.ndta == n)
    requires forall k :: k in open && !(t[i].active && k == Key(t[i])) ==> k in open' && open'[k] == open[k]
    requires x.active && Live(t, open) ==> Key(x) in open' && (Key(x) !in open || (t[i].active && Key(x) == Key(t[i])))
    ensures Keeps(t, open, t[i := x], open', n)
  {
    var t' := t[i := x];
    forall m: dword | m != n && Registered(t', m) ensures Registered(t, m) && t'[Find(t', m)] == t[Find(t, m)] {
      var k := Find(t', m);
      assert k != i && t[k] == t'[k];
      FindIs(t, k);
    }
    if Live(t, open) {
      assert Live(t', open');
    }
  }

  /** With nothing lost on the handle, `r` is the answer owed for the entries read in between. */
  ghost predicate Accounts(r: SearchResult, s: Search, s': Search, was: map<Handle, Cursor>, now: map<Handle, Cursor>) {
    Key(s) in was && Key(s) in now && now[Key(s)].intact && EofTrue(s, was)
    && was[Key(s)].pos <= |was[Key(s)].dir| && now[Key(s)].pos <= |now[Key(s)].dir| ==>
      && Answers(r, Rest(was[Key(s)]), Rest(now[Key(s)]), s.pattern, s.attribs)
      && EofTrue(s', now)
  }

  /** Rounds without a result, followed by one more round. */
  lemma AccountsChain(r: SearchResult, s: Search, s1: Search, s2: Search,
                      m: map<Handle, Cursor>, m1: map<Handle, Cursor>, m2: map<Handle, Cursor>,
                      lost: nat, lost1: nat, lost2: nat)
    requires Key(s1) == Key(s) == Key(s2) && s1.pattern == s.pattern && s1.attribs == s.attribs
    requires ReadsOnly(Key(s), m, m1, lost, lost1) && ReadsOnly(Key(s), m1, m2, lost1, lost2) && lost <= lost1 <= lost2
    requires Accounts(Error, s, s1, m, m1) && Accounts(r, s1, s2, m1, m2)
    ensures ReadsOnly(Key(s), m, m2, lost, lost2) && Accounts(r, s, s2, m, m2)
  {
  }

  lemma {:induction false} NormalizedLength(es: seq<Entry>)
    ensures |Wire.Normalized(es)| <= |es|
  {
    if es != [] { NormalizedLength(es[1..]); }
  }

  lemma GotNames(received: seq<Entry>, got: seq<AtariEntry>)
    requires |received| <= 1 && got == Wire.Normalized(received)
    ensures |got| <= 1 && (got != [] ==> STAR !in got[0].name && CString(got[0].name))
  {
    RoundFacts(received, [], got, [], 0);
  }

  lemma NothingNormalized()
    ensures Wire.Normalized([]) == []
  {
  }

  lemma ForwardChain(key: Handle, m: map<Handle, Cursor>, m1: map<Handle, Cursor>, m2: map<Handle, Cursor>, lost: nat, lost1: nat)
    requires ReadsOnly(key, m, m1, lost, lost1) && Forward(key, m1, m2)
    ensures Forward(key, m, m2)
  {
  }

  lemma NoMoreMatches(pattern: seq<byte>, attribs: byte)
    ensures Matches([], pattern, attribs) == []
  {
  }

  /** What one round's entry means for the search. */
  lemma RoundFacts(received: seq<Entry>, rest: seq<Entry>, got: seq<AtariEntry>, pattern: seq<byte>, attribs: byte)
    requires |received| <= 1 && got == Wire.Normalized(received)
    ensures |got| <= 1
    ensures got != [] ==> STAR !in got[0].name && CString(got[0].name)
    ensures got != [] && Wildcard.Glob(NormalizePattern(pattern), got[0].name) && AttrMatch(got[0], attribs) ==>
              Matches(received + rest, pattern, attribs) == got + Matches(rest, pattern, attribs)
    ensures got == [] || !(Wildcard.Glob(NormalizePattern(pattern), got[0].name) && AttrMatch(got[0], attribs)) ==>
              Matches(received + rest, pattern, attribs) == Matches(rest, pattern, attribs)
  {
    if |received| == 0 {
      assert received + rest == rest;
    } else {
      var e := received[0];
      assert received == [e] && ([e] + rest)[1..] == rest;
      assert Wire.Normalized([e]) == Wire.NormalForm(e);
      EntryFacts(e, pattern, attribs);
      hide Wildcard.Glob, NormalizePattern, AttrMatch, Wire.NormalForm, MatchForm;
    }
  }

  /** The form an entry has for Fsfirst and Fsnext, and whether the search keeps it. */
  lemma EntryFacts(e: Entry, pattern: seq<byte>, attribs: byte)
    ensures var got := Wire.NormalForm(e);
            && |got| <= 1
            && (got != [] ==> STAR !in got[0].name && CString(got[0].name))
            && MatchForm(e, pattern, attribs) ==
                 if got != [] && Wildcard.Glob(NormalizePattern(pattern), got[0].name) && AttrMatch(got[0], attribs) then got else []
  {
    if Supported83(e.name) { SupportedHasNoStar(e.name); }
    WantedIsTested(e, pattern, attribs);
    hide Wildcard.Glob, NormalizePattern, AttrMatch, Supported83, Wanted;
  }

  /** A recorded EOF is true of the server. */
  ghost predicate EofTrue(s: Search, open: map<Handle, Cursor>) {
    s.eof ==> Key(s) in open && open[Key(s)].pos == |open[Key(s)].dir|
  }

  /** Reading on one handle: every other handle is untouched, and lost entries are counted. */
  ghost predicate ReadsOnly(key: Handle, was: map<Handle, Cursor>, now: map<Handle, Cursor>, lost: nat, lost': nat) {
    if key !in was then now == was
    else
      && key in now && now == was[key := now[key]] && Moved(was[key], now[key])
      && (was[key].intact && !now[key].intact ==> lost' > lost)
  }

  /** If nothing was lost, exactly `received` lies between the two server states. */
  ghost predicate Brings(key: Handle, was: map<Handle, Cursor>, now: map<Handle, Cursor>, received: seq<Entry>) {
    key in was && key in now && now[key].intact && was[key].pos <= |was[key].dir| && now[key].pos <= |now[key].dir| ==>
      Rest(was[key]) == received + Rest(now[key])
  }

  lemma StartsUnread(key: Handle, m: map<Handle, Cursor>, lost: nat)
    requires forall k :: k in m ==> GoodCursor(m[k])
    ensures ReadsOnly(key, m, m, lost, lost) && Brings(key, m, m, [])
  {
    hide Wire.Sendable;
    if key in m { assert [] + Rest(m[key]) == Rest(m[key]); }
  }

  /** One more READDIRX after reads that brought nothing; `got` is what this one brought. */
  lemma ReadStep(key: Handle, m: map<Handle, Cursor>, m1: map<Handle, Cursor>, m2: map<Handle, Cursor>,
                 lost: nat, lost1: nat, lost2: nat, sent: seq<Entry>, got: seq<Entry>)
    requires ReadsOnly(key, m, m1, lost, lost1) && Brings(key, m, m1, []) && lost <= lost1 <= lost2
    requires key !in m1 ==> m2 == m1 && got == []
    requires key in m1 ==> AdvancedBy(m1, m2, key, sent) && (m1[key].intact && !m2[key].intact ==> lost2 > lost1)
    requires key in m2 && m2[key].intact ==> got == sent
    ensures ReadsOnly(key, m, m2, lost, lost2) && Brings(key, m, m2, got)
    ensures key in m1 && sent != [] ==> Forward(key, m, m2)
    ensures key in m2 && m2[key].pos == |m2[key].dir| ==> Drained(key, m2)
  {
    if key in m && key in m2 && m2[key].intact && m[key].pos <= |m[key].dir| && m2[key].pos <= |m2[key].dir| {
      assert Rest(m1[key]) == sent + Rest(m2[key]);
      assert [] + Rest(m1[key]) == Rest(m1[key]);
    }
  }

  lemma StillOpen(key: Handle, m: map<Handle, Cursor>, m': map<Handle, Cursor>, lost: nat, lost': nat)
    requires ReadsOnly(key, m, m', lost, lost')
    ensures key in m ==> key in m'
  {
  }

  /** A round without an answer got further, or learned that this is the end, or lost something. */
  ghost predicate Went(key: Handle, was: map<Handle, Cursor>, now: map<Handle, Cursor>, eof: bool) {
    key in now && now[key].intact ==> eof || Forward(key, was, now)
  }

  lemma SomethingHappened(key: Handle, was: map<Handle, Cursor>, now: map<Handle, Cursor>, received: seq<Entry>, eof: bool, prompt: bool)
    requires received != [] ==> Forward(key, was, now)
    requires !eof && prompt && received == [] ==> key in now && !now[key].intact
    ensures prompt ==> Went(key, was, now, eof)
  {
  }

  /**
   * One READDIRX for one entry, retries included: `good` if an answer came that says OK or EOF, and
   * `received` is then what it brought.
   */
  ghost predicate Reply(good: bool, eof: bool, received: seq<Entry>, key: Handle, was: map<Handle, Cursor>, now: map<Handle, Cursor>,
                        lost: nat, lost': nat, calm: bool) {
    && ReadsOnly(key, was, now, lost, lost') && Brings(key, was, now, if good then received else [])
    && (calm && key in was ==> good)
    && (good ==>
          && |received| <= 1 && (received != [] ==> Forward(key, was, now)) && (eof ==> Drained(key, now))
          && (calm ==> Went(key, was, now, eof)))
  }

  /** At most `n` entries further on, if nothing was lost. */
  ghost predicate Paced(key: Handle, was: map<Handle, Cursor>, now: map<Handle, Cursor>, n: nat) {
    key in was && key in now && now[key].intact ==> now[key].pos <= was[key].pos + n
  }

  /** If nothing was lost, `e` is what the entry handed out last means to the search. */
  ghost predicate Lands(e: AtariEntry, s: Search, now: map<Handle, Cursor>) {
    Key(s) in now && now[Key(s)].intact && now[Key(s)].pos <= |now[Key(s)].dir| ==>
      now[Key(s)].pos > 0 && Matches([now[Key(s)].dir[now[Key(s)].pos - 1]], s.pattern, s.attribs) == [e]
  }

  /** `rounds` rounds without an answer. */
  ghost predicate WentRounds(key: Handle, was: map<Handle, Cursor>, now: map<Handle, Cursor>, rounds: nat, eof: bool) {
    key in was ==> key in now && (now[key].intact ==> now[key].pos + (if eof then 1 else 0) >= was[key].pos + rounds)
  }

  /** What one round of the search loop does; `calm` if no exchange failed and the server is prompt. */
  ghost predicate OneRound(o: Option<SearchResult>, s: Search, s': Search, was: map<Handle, Cursor>, now: map<Handle, Cursor>,
                           lost: nat, lost': nat, calm: bool) {
    && ReadsOnly(Key(s), was, now, lost, lost') && Accounts(if o.Some? then o.value else Error, s, s', was, now)
    && (s.eof <==> o == Some(NotFound)) && (s.eof ==> s'.eof) && Paced(Key(s), was, now, if s.eof then 0 else 1)
    && (o.Some? && o.value.Found? ==> Forward(Key(s), was, now) && Lands(o.value.entry, s, now))
    && (calm && Key(s) in was ==> o != Some(Error))
    && (calm && o.None? ==> Went(Key(s), was, now, s'.eof))
  }

  /**
   * What one search does: its answer accounts for the entries handed out, of which a found one is
   * the last; NOT_FOUND takes a recorded EOF; and if no exchange failed and the server is prompt, it
   * gives up only after all its rounds.
   */
  ghost predicate Outcome(r: SearchResult, s: Search, s': Search, was: map<Handle, Cursor>, now: map<Handle, Cursor>,
                          lost: nat, lost': nat, calm: bool) {
    && ReadsOnly(Key(s), was, now, lost, lost') && Accounts(r, s, s', was, now)
    && (r.Found? ==> Forward(Key(s), was, now) && Lands(r.entry, s, now))
    && (r.NotFound? ==> s'.eof) && Paced(Key(s), was, now, if r.NotFound? then LAST else MAX_ROUNDS)
    && (r.Error? && calm ==> WentRounds(Key(s), was, now, MAX_ROUNDS, s'.eof))
  }

  /** A search in progress: `rounds` rounds have brought no answer. */
  ghost predicate Searching(s: Search, s1: Search, m: map<Handle, Cursor>, m1: map<Handle, Cursor>,
                            lost: nat, lost1: nat, rounds: nat, calm: bool) {
    && Key(s1) == Key(s) && s1.pattern == s.pattern && s1.attribs == s.attribs && lost <= lost1
    && ReadsOnly(Key(s), m, m1, lost, lost1) && Accounts(Error, s, s1, m, m1) && Paced(Key(s), m, m1, rounds)
    && (calm ==> WentRounds(Key(s), m, m1, rounds, s1.eof))
  }

  lemma SearchingStarts(s: Search, m: map<Handle, Cursor>, lost: nat)
    requires forall k :: k in m ==> GoodCursor(m[k])
    ensures Searching(s, s, m, m, lost, lost, 0, true)
  {
    hide Wire.Sendable;
  }

  /** A search that cannot even start. */
  lemma NoRounds(s: Search, s': Search, m: map<Handle, Cursor>, lost: nat)
    requires s' == s.(lastTouched := s'.lastTouched) && forall k :: k in m ==> GoodCursor(m[k])
    ensures Outcome(Error, s, s', m, m, lost, lost, false)
  {
    hide Wire.Sendable;
  }

  lemma RoundsChain(key: Handle, m: map<Handle, Cursor>, m1: map<Handle, Cursor>, m2: map<Handle, Cursor>,
                    lost: nat, lost1: nat, lost2: nat, rounds: nat, eof1: bool, eof2: bool)
    requires ReadsOnly(key, m, m1, lost, lost1) && ReadsOnly(key, m1, m2, lost1, lost2)
    requires WentRounds(key, m, m1, rounds, eof1) && !eof1 && Went(key, m1, m2, eof2)
    ensures WentRounds(key, m, m2, rounds + 1, eof2)
  {
  }

  lemma PacedChain(key: Handle, m: map<Handle, Cursor>, m1: map<Handle, Cursor>, m2: map<Handle, Cursor>,
                   lost: nat, lost1: nat, lost2: nat, a: nat, b: nat)
    requires ReadsOnly(key, m, m1, lost, lost1) && ReadsOnly(key, m1, m2, lost1, lost2)
    requires Paced(key, m, m1, a) && Paced(key, m1, m2, b)
    ensures forall n :: a + b <= n ==> Paced(key, m, m2, n)
  {
  }

  lemma SearchingRoomy(s: Search, s1: Search, m: map<Handle, Cursor>, m1: map<Handle, Cursor>, lost: nat, lost1: nat, rounds: nat, calm: bool)
    requires Searching(s, s1, m, m1, lost, lost1, rounds, calm) && Roomy(Key(s), m)
    ensures Roomy(Key(s1), m1)
  {
    hide Accounts, WentRounds, Roomy;
    StaysRoomy(Key(s), m, m1, lost, lost1);
  }

  /** One more round. */
  lemma SearchingNext(o: Option<SearchResult>, s: Search, s1: Search, s2: Search,
                      m: map<Handle, Cursor>, m1: map<Handle, Cursor>, m2: map<Handle, Cursor>,
                      lost: nat, lost1: nat, lost2: nat, rounds: nat, calm1: bool, calm: bool)
    requires Searching(s, s1, m, m1, lost, lost1, rounds, calm1) && s2 == s1.(eof := s2.eof) && lost1 <= lost2
    requires OneRound(o, s1, s2, m1, m2, lost1, lost2, calm) && (calm ==> calm1) && rounds < MAX_ROUNDS
    ensures o.None? ==> Searching(s, s2, m, m2, lost, lost2, rounds + 1, calm)
    ensures o.Some? ==> Outcome(o.value, s, s2, m, m2, lost, lost2, calm)
  {
    AccountsChain(if o.Some? then o.value else Error, s, s1, s2, m, m1, m2, lost, lost1, lost2);
    PacedChain(Key(s), m, m1, m2, lost, lost1, lost2, rounds, if s1.eof then 0 else 1);
    hide Accounts, Lands, Paced;
    if o.None? && calm { RoundsChain(Key(s), m, m1, m2, lost, lost1, lost2, rounds, s1.eof, s2.eof); }
    if o.Some? && o.value.Found? {
      ForwardChain(Key(s), m, m1, m2, lost, lost1);
      LandsToo(o.value.entry, s, s1, m2);
    }
  }

  lemma LandsToo(e: AtariEntry, s: Search, s1: Search, now: map<Handle, Cursor>)
    requires Lands(e, s1, now) && Key(s1) == Key(s) && s1.pattern == s.pattern && s1.attribs == s.attribs
    ensures Lands(e, s, now)
  {
  }

  lemma OutcomeStamped(r: SearchResult, s: Search, s1: Search, s2: Search, was: map<Handle, Cursor>, now: map<Handle, Cursor>,
                       lost: nat, lost': nat, calm: bool)
    requires Outcome(r, s1, s2, was, now, lost, lost', calm) && s1 == s.(lastTouched := s1.lastTouched)
    ensures Outcome(r, s, s2, was, now, lost, lost', calm)
  {
    hide Answers, Matches;
  }

  /** The rounds are used up. */
  lemma SearchingEnds(s: Search, s1: Search, m: map<Handle, Cursor>, m1: map<Handle, Cursor>, lost: nat, lost1: nat, calm: bool)
    requires Searching(s, s1, m, m1, lost, lost1, MAX_ROUNDS, calm)
    ensures Outcome(Error, s, s1, m, m1, lost, lost1, calm)
  {
  }

  lemma SomethingSent(received: seq<Entry>, sent: seq<Entry>)
    requires received <= sent
    ensures received != [] ==> sent != []
    ensures |received| <= |sent|
  {
  }

  /** The server has handed out something on this handle. */
  ghost predicate Forward(key: Handle, was: map<Handle, Cursor>, now: map<Handle, Cursor>) {
    key in was && key in now && was[key].dir == now[key].dir && was[key].pos < now[key].pos <= |now[key].dir|
  }

  ghost predicate Drained(key: Handle, open: map<Handle, Cursor>) {
    key in open && open[key].pos == |open[key].dir|
  }

  lemma ReplySize(eof: bool, received: seq<Entry>, key: Handle, was: map<Handle, Cursor>, now: map<Handle, Cursor>,
                  lost: nat, lost': nat, calm: bool)
    requires Reply(true, eof, received, key, was, now, lost, lost', calm)
    ensures |received| <= 1
  {
  }

  /** What a round makes of the at most one entry it received. */
  ghost predicate Judged(o: Option<AtariEntry>, received: seq<Entry>, pattern: seq<byte>, attribs: byte) {
    var got := Wire.Normalized(received);
    && |received| <= 1
    && (o.Some? <==> got != [] && Wildcard.Glob(NormalizePattern(pattern), got[0].name) && AttrMatch(got[0], attribs))
    && (o.Some? ==> got == [o.value])
  }

  lemma JudgedFacts(o: Option<AtariEntry>, received: seq<Entry>, rest: seq<Entry>, pattern: seq<byte>, attribs: byte)
    requires Judged(o, received, pattern, attribs)
    ensures Matches(received + rest, pattern, attribs) == (if o.Some? then [o.value] else []) + Matches(rest, pattern, attribs)
    ensures o.Some? ==> |received| == 1
  {
    hide Matches, Wire.Normalized, Wildcard.Glob, NormalizePattern, AttrMatch;
    RoundFacts(received, rest, Wire.Normalized(received), pattern, attribs);
    NothingNormalized();
  }

  ghost function Verdict(o: Option<AtariEntry>): SearchResult {
    if o.Some? then Found(o.value) else Error
  }

  lemma RoundAccounts(s: Search, s': Search, was: map<Handle, Cursor>, now: map<Handle, Cursor>,
                      received: seq<Entry>, o: Option<AtariEntry>)
    requires Key(s') == Key(s) && (s'.eof ==> Drained(Key(s), now))
    requires Brings(Key(s), was, now, received) && Judged(o, received, s.pattern, s.attribs)
    ensures Accounts(Verdict(o), s, s', was, now)
  {
    hide Matches, Judged;
    if Key(s) in now && now[Key(s)].pos <= |now[Key(s)].dir| {
      JudgedFacts(o, received, Rest(now[Key(s)]), s.pattern, s.attribs);
    }
  }

  /** An intact handle has advanced by the entries received. */
  lemma RoundPaced(key: Handle, was: map<Handle, Cursor>, now: map<Handle, Cursor>, lost: nat, lost': nat, received: seq<Entry>)
    requires ReadsOnly(key, was, now, lost, lost') && Brings(key, was, now, received)
    ensures Paced(key, was, now, |received|)
  {
    if key in was && key in now && now[key].intact && was[key].pos <= |was[key].dir| {
      assert |Rest(was[key])| == |received| + |Rest(now[key])|;
    }
  }

  lemma RoundLands(s: Search, was: map<Handle, Cursor>, now: map<Handle, Cursor>, lost: nat, lost': nat,
                   received: seq<Entry>, e: AtariEntry)
    requires ReadsOnly(Key(s), was, now, lost, lost') && Brings(Key(s), was, now, received) && Forward(Key(s), was, now)
    requires Judged(Some(e), received, s.pattern, s.attribs)
    ensures Lands(e, s, now)
  {
    hide Matches, Judged;
    var key := Key(s);
    JudgedFacts(Some(e), received, [], s.pattern, s.attribs);
    if key in now && now[key].intact && now[key].pos <= |now[key].dir| {
      RoundPaced(key, was, now, lost, lost', received);
      assert now[key].dir[now[key].pos - 1] == Rest(was[key])[0] == received[0];
      assert received + [] == received == [received[0]];
      NoMoreMatches(s.pattern, s.attribs);
    }
  }

  lemma RoundDone(s: Search, s': Search, was: map<Handle, Cursor>, now: map<Handle, Cursor>, lost: nat, lost': nat,
                  received: seq<Entry>, o: Option<AtariEntry>, calm: bool)
    requires s' == s.(eof := s'.eof) && !s.eof && Judged(o, received, s.pattern, s.attribs)
    requires Reply(true, s'.eof, received, Key(s), was, now, lost, lost', calm)
    ensures OneRound(if o.Some? then Some(Found(o.value)) else None, s, s', was, now, lost, lost', calm)
  {
    JudgedFacts(o, received, [], s.pattern, s.attribs);
    RoundAccounts(s, s', was, now, received, o);
    RoundPaced(Key(s), was, now, lost, lost', received);
    if o.Some? { RoundLands(s, was, now, lost, lost', received, o.value); }
    assert |received| <= 1;
    assert Paced(Key(s), was, now, 1);
    hide Accounts, ReadsOnly, Lands, Forward, Went, Brings, Drained, Paced, Judged, Matches;
  }

  lemma RoundFails(s: Search, was: map<Handle, Cursor>, now: map<Handle, Cursor>, lost: nat, lost': nat,
                   received: seq<Entry>, eof: bool, calm: bool)
    requires !s.eof && Reply(false, eof, received, Key(s), was, now, lost, lost', calm)
    ensures OneRound(Some(Error), s, s, was, now, lost, lost', calm)
  {
    hide Matches;
    RoundPaced(Key(s), was, now, lost, lost', []);
    if Key(s) in now && now[Key(s)].pos <= |now[Key(s)].dir| {
      assert [] + Rest(now[Key(s)]) == Rest(now[Key(s)]);
    }
  }

  lemma RoundAtEof(s: Search, open: map<Handle, Cursor>, lost: nat)
    requires s.eof && forall k :: k in open ==> GoodCursor(open[k])
    ensures forall calm :: OneRound(Some(NotFound), s, s, open, open, lost, lost, calm)
  {
    hide Wire.Sendable;
    NoMoreMatches(s.pattern, s.attribs);
  }

  /** The server's position on one handle after some reads. */
  ghost predicate Moved(c: Cursor, c': Cursor) {
    && c'.dir == c.dir && c.pos <= c'.pos <= |c.dir|
    && (c'.intact ==> c.intact)
  }

  lemma SameShape(t: Table, tokens: seq<nat>, obtained: nat, closeTried: set<nat>, confirmed: set<nat>, i: nat, s: Search)
    requires LedgerOk(t, tokens, obtained, closeTried, confirmed) && Distinct(t) && Agrees(t) && i < |t|
    requires s == t[i].(lastTouched := s.lastTouched, eof := s.eof)
    ensures LedgerOk(t[i := s], tokens, obtained, closeTried, confirmed) && Distinct(t[i := s]) && Agrees(t[i := s])
  {
    var t' := t[i := s];
    forall k | 0 <= k < obtained && k !in closeTried ensures Held(t', tokens, k) {
      assert Held(t, tokens, k);
      var j :| 0 <= j < |t| && t[j].active && tokens[j] == k;
      assert t'[j].active && tokens[j] == k;
    }
  }

  lemma {:induction false} SameFind(t: Table, i: nat, s: Search, n: dword)
    requires i < |t| && s.active == t[i].active && s.ndta == t[i].ndta
    ensures Find(t[i := s], n) == Find(t, n)
  {
    if i == 0 {
      assert t[i := s][1..] == t[1..];
    } else {
      assert t[i := s][1..] == t[1..][i - 1 := s];
      SameFind(t[1..], i - 1, s, n);
    }
  }

  lemma SameOrder(t: Table, l: seq<dword>, touches: nat, i: nat, s: Search)
    requires Represents(t, l, touches) && i < |t| && s == t[i].(eof := s.eof)
    ensures Represents(t[i := s], l, touches)
  {
    hide Find, CountActive;
    forall n: dword ensures Find(t[i := s], n) == Find(t, n) { SameFind(t, i, s, n); }
    CountUpdate(t, i, s);
    forall a | 0 <= a < |l| ensures Registered(t, l[a]) { assert l[a] in l; }
  }

  lemma DistinctAdd(t: Table, i: nat, s: Search)
    requires Distinct(t) && i < |t| && !t[i].active && !Registered(t, s.ndta)
    ensures Distinct(t[i := s])
  {
  }

  lemma StillNotRegistered(t: Table, i: nat, off: Search, n: dword)
    requires i < |t| && !off.active && !Registered(t, n)
    ensures !Registered(t[i := off], n)
  {
    var t' := t[i := off];
    forall k | 0 <= k < |t'| ensures !(t'[k].active && t'[k].ndta == n) {
      assert k != i ==> t'[k] == t[k];
    }
  }

  /** The three ways a search gets its slot are the three cases of `LruInsert`. */
  lemma InsertFacts(t: Table, l: seq<dword>, touches: nat, n: dword)
    requires Represents(t, l, touches) && |t| == DTA_SLOTS
    ensures Registered(t, n) ==> LruInsert(l, n) == Without(l, n) + [n]
    ensures !Registered(t, n) && |l| < DTA_SLOTS ==> LruInsert(l, n) == l + [n]
    ensures !Registered(t, n) && |l| >= DTA_SLOTS ==> LruInsert(l, n) == l[1..] + [n]
    ensures |l| >= DTA_SLOTS <==> forall k :: 0 <= k < |t| ==> t[k].active
  {
    CountBound(t);
    DistinctList(t, l, touches);
    if n in l { WithoutPresent(l, n); } else { WithoutAbsent(l, n); }
  }

  lemma LedgerTry(t: Table, tokens: seq<nat>, obtained: nat, closeTried: set<nat>, confirmed: set<nat>, k: nat)
    requires LedgerOk(t, tokens, obtained, closeTried, confirmed) && k < obtained
    ensures LedgerOk(t, tokens, obtained, closeTried + {k}, confirmed)
  {
  }

  lemma LedgerVacate(t: Table, tokens: seq<nat>, obtained: nat, closeTried: set<nat>, confirmed: set<nat>, i: nat, off: Search)
    requires |tokens| == |t| && i < |t| && !off.active && tokens[i] in closeTried && confirmed <= closeTried
    requires LedgerOk(t, tokens, obtained, closeTried, confirmed - {tokens[i]}) && t[i].active
    ensures LedgerOk(t[i := off], tokens, obtained, closeTried, confirmed)
  {
    var t' := t[i := off];
    forall k | 0 <= k < obtained && k !in closeTried ensures Held(t', tokens, k) {
      assert Held(t, tokens, k);
      var j :| 0 <= j < |t| && t[j].active && tokens[j] == k;
      assert t'[j].active && tokens[j] == k;
    }
  }

  /** A newly obtained handle goes into a free slot. */
  lemma LedgerAdd(t: Table, tokens: seq<nat>, obtained: nat, closeTried: set<nat>, confirmed: set<nat>, i: nat, s: Search)
    requires LedgerOk(t, tokens, obtained, closeTried, confirmed) && i < |t| && !t[i].active && s.active
    ensures LedgerOk(t[i := s], tokens[i := obtained], obtained + 1, closeTried, confirmed)
  {
    var t', tokens' := t[i := s], tokens[i := obtained];
    forall k | 0 <= k < obtained + 1 && k !in closeTried ensures Held(t', tokens', k) {
      if k == obtained {
        assert t'[i].active && tokens'[i] == k;
      } else {
        assert Held(t, tokens, k);
        var j :| 0 <= j < |t| && t[j].active && tokens[j] == k;
        assert t'[j].active && tokens'[j] == k;
      }
    }
  }

  /** A search whose handle has just been obtained enters a free slot. */
  lemma OccupyFacts(t: Table, l: seq<dword>, touches: nat, tokens: seq<nat>, obtained: nat, closeTried: set<nat>, confirmed: set<nat>,
                    i: nat, s: Search)
    requires i < |t| && !t[i].active && s.active && s.handleValid && CString(s.pattern) && !Registered(t, s.ndta)
    requires Distinct(t) && Agrees(t) && LedgerOk(t, tokens, obtained, closeTried, confirmed)
    requires s.lastTouched == (touches + 1) % TWO_TO_32
    requires touches < TWO_TO_32 ==> Represents(t, l, touches)
    ensures Distinct(t[i := s]) && Agrees(t[i := s])
    ensures touches + 1 < TWO_TO_32 ==> Represents(t[i := s], l + [s.ndta], touches + 1)
    ensures LedgerOk(t[i := s], tokens[i := obtained], obtained + 1, closeTried, confirmed)
  {
    LedgerAdd(t, tokens, obtained, closeTried, confirmed, i, s);
    DistinctAdd(t, i, s);
    hide Represents, LedgerOk, Registered, Distinct;
    if touches + 1 < TWO_TO_32 { RepresentsAdd(t, l, touches, i, s); }
  }

  lemma EmptyTable(t: Table)
    requires |t| == DTA_SLOTS && forall i :: 0 <= i < |t| ==> t[i] == FREE
    ensures Distinct(t) && Agrees(t) && Represents(t, [], 0)
  {
    CountNone(t);
  }

  lemma {:induction false} CountNone(t: Table)
    requires forall i :: 0 <= i < |t| ==> t[i] == FREE
    ensures CountActive(t) == 0
  {
    if t != [] { CountNone(t[1..]); }
  }
}
