/**
 * Fsfirst and Fsnext over TNFS (sidetnfs_probe.c, 4829-5536): the registry of open searches, the
 * ledger of the directory handles it obtained, and the walk that answers one search.
 */
module Dta {
  import opened Words
  import Names
  import Wildcard
  import Wire
  import opened Tnfs
  import opened DtaTable
  import opened DtaSearch

  class Registry {
    const net: Net
    const searches: array<Search>
    var touchCounter: dword

    // How many touches there have been; the counter is that number in 32 bits.
    ghost var touches: nat
    // The ndtas of the open searches, least recently touched first.
    ghost var order: seq<dword>
    // Handles are numbered as they are obtained: which one each slot holds, whose close was tried,
    // and whose close the server confirmed.
    ghost var tokens: seq<nat>
    ghost var obtained: nat
    ghost var closeTried: set<nat>
    ghost var confirmed: set<nat>

    ghost function T(): Table
      reads this, searches
    {
      searches[..]
    }

    ghost predicate Valid()
      reads this, searches, net
    {
      && net.Valid() && searches.Length == DTA_SLOTS
      && Distinct(T()) && Agrees(T())
      && touchCounter == touches % TWO_TO_32
      && (touches < TWO_TO_32 ==> Represents(T(), order, touches))
      && LedgerOk(T(), tokens, obtained, closeTried, confirmed)
    }

    constructor (net: Net)
      requires net.Valid()
      ensures Valid() && this.net == net && fresh(searches)
      ensures order == [] && obtained == 0 && T() == seq(DTA_SLOTS, _ => FREE)
    {
      this.net := net;
      searches := new Search[DTA_SLOTS](_ => FREE);
      touchCounter, touches, order := 0, 0, [];
      tokens, obtained, closeTried, confirmed := seq(DTA_SLOTS, _ => 0), 0, {}, {};
      new;
      assert T() == seq(DTA_SLOTS, _ => FREE);
      EmptyTable(T());
    }

    /** `lookupTnfsDTA`. */
    method Lookup(ndta: dword) returns (i: nat)
      requires searches.Length == DTA_SLOTS
      ensures i == Find(T(), ndta)
    {
      for k := 0 to DTA_SLOTS
        invariant forall j :: 0 <= j < k ==> !(searches[j].active && searches[j].ndta == ndta)
      {
        if searches[k].active && searches[k].ndta == ndta { return k; }
      }
      return DTA_SLOTS;
    }

    /**
     * `tnfs_dta_closedir`: up to three requests, none after an answer.  A handle whose close was
     * confirmed may not be named again.
     */
    method CloseHandle(slot: int, handle: byte, ghost token: nat)
      requires net.Valid() && token !in confirmed
      modifies this`closeTried, this`confirmed, net`open, net`resp, net`faults
      ensures net.Valid() && net.faults >= old(net.faults)
      ensures closeTried == old(closeTried) + {token}
      ensures confirmed == old(confirmed) || confirmed == old(confirmed) + {token}
      ensures net.open == old(net.open) || net.open == old(net.open) - {(slot, handle)}
      ensures net.faults == old(net.faults) && (slot, handle) in old(net.open) ==> token in confirmed && (slot, handle) !in net.open
    {
      closeTried := closeTried + {token};
      var up := net.SlotUp(slot);
      if !up { return; }
      var retriesLeft := RETRIES;
      while true
        invariant net.faults == old(net.faults) ==> net.open == old(net.open)
        invariant net.Valid() && net.faults >= old(net.faults) && confirmed == old(confirmed) && closeTried == old(closeTried) + {token}
        invariant net.open == old(net.open) || net.open == old(net.open) - {(slot, handle)}
        decreases retriesLeft
      {
        var x := net.CloseDirX(slot, handle);
        if x.SendFailed? { return; }
        if x.Answered? {
          if net.Rc() == TNFS_OK { confirmed := confirmed + {token}; }
          return;
        }
        if retriesLeft <= 0 { return; }
        retriesLeft := retriesLeft - 1;
      }
    }

    /** Frees a slot whose handle is no longer open, or whose close was at least attempted. */
    method Vacate(i: nat)
      requires net.Valid() && searches.Length == DTA_SLOTS && i < DTA_SLOTS && searches[i].active
      requires Distinct(T()) && Agrees(T()) && touchCounter == touches % TWO_TO_32
      requires touches < TWO_TO_32 ==> Represents(T(), order, touches)
      requires |tokens| == DTA_SLOTS && tokens[i] in closeTried
      requires LedgerOk(T(), tokens, obtained, closeTried, confirmed - {tokens[i]}) && confirmed <= closeTried
      modifies this`order, searches
      ensures Valid()
      ensures T() == old(T())[i := old(T())[i].(active := false, handleValid := false)]
      ensures order == Without(old(order), old(T())[i].ndta)
    {
      ghost var t := T();
      ghost var off := t[i].(active := false, handleValid := false);
      LedgerVacate(t, tokens, obtained, closeTried, confirmed, i, off);
      if touches < TWO_TO_32 { RepresentsDrop(t, order, touches, i, off); }
      hide Represents, LedgerOk;
      searches[i] := searches[i].(active := false, handleValid := false);
      assert T() == t[i := off];
      order := Without(order, t[i].ndta);
    }

    /** `releaseTnfsDTA` for the search in slot `i`. */
    method ReleaseSlot(i: nat)
      requires Valid() && i < DTA_SLOTS && searches[i].active
      modifies this`order, this`closeTried, this`confirmed, searches, net`open, net`resp, net`faults
      ensures Valid()
      ensures T() == old(T())[i := old(T())[i].(active := false, handleValid := false)]
      ensures order == Without(old(order), old(T())[i].ndta)
      ensures closeTried == old(closeTried) + {tokens[i]} && net.faults >= old(net.faults)
      ensures net.open == old(net.open) || net.open == old(net.open) - {Key(old(T())[i])}
      ensures net.faults == old(net.faults) ==> Key(old(T())[i]) !in net.open
    {
      hide Represents, Distinct, Net.Valid;
      LedgerTry(T(), tokens, obtained, closeTried, confirmed, tokens[i]);
      if searches[i].handleValid {
        CloseHandle(searches[i].runtimeSlot, searches[i].dirHandle, tokens[i]);
      }
      assert confirmed - {tokens[i]} == old(confirmed);
      Vacate(i);
    }

    /** `releaseTnfsDTA`. */
    method Release(ndta: dword)
      requires Valid()
      modifies this`order, this`closeTried, this`confirmed, searches, net`open, net`resp, net`faults
      ensures Valid() && !Registered(T(), ndta) && net.faults >= old(net.faults)
      ensures !Registered(old(T()), ndta) ==> T() == old(T()) && order == old(order) && net.open == old(net.open)
      ensures Registered(old(T()), ndta) ==>
                var i := Find(old(T()), ndta);
                && T() == old(T())[i := old(T())[i].(active := false, handleValid := false)]
                && order == Without(old(order), ndta)
                && (net.open == old(net.open) || net.open == old(net.open) - {Key(old(T())[i])})
                && (net.faults == old(net.faults) ==> Key(old(T())[i]) !in net.open)
    {
      var i := Lookup(ndta);
      if i < DTA_SLOTS {
        ghost var t := T();
        NotRegistered(t, i, t[i].(active := false, handleValid := false));
        hide Represents, Distinct, Net.Valid, LedgerOk;
        ReleaseSlot(i);
      }
    }

    /** `alloc_tnfs_dta_slot`: a free slot; failing that, the least recently touched search makes room. */
    method Alloc() returns (i: nat)
      requires Valid()
      modifies this`order, this`closeTried, this`confirmed, searches, net`open, net`resp, net`faults
      ensures Valid() && i < DTA_SLOTS && !searches[i].active && net.faults >= old(net.faults)
      ensures !old(T())[i].active ==> T() == old(T()) && order == old(order) && net.open == old(net.open)
      ensures old(T())[i].active ==>
                && (forall k :: 0 <= k < DTA_SLOTS ==> old(T())[k].active)
                && T() == old(T())[i := old(T())[i].(active := false, handleValid := false)]
                && (net.open == old(net.open) || net.open == old(net.open) - {Key(old(T())[i])})
                && (touches < TWO_TO_32 ==> |old(order)| == DTA_SLOTS && old(T())[i].ndta == old(order)[0] && order == old(order)[1..])
    {
      for k := 0 to DTA_SLOTS
        invariant forall j :: 0 <= j < k ==> searches[j].active
      {
        if !searches[k].active { return k; }
      }
      i := 0;
      for k := 1 to DTA_SLOTS
        invariant 0 <= i < k && forall j :: 0 <= j < k ==> searches[i].lastTouched <= searches[j].lastTouched
      {
        if searches[k].lastTouched < searches[i].lastTouched { i := k; }
      }
      if touches < TWO_TO_32 { VictimIsFront(T(), order, touches, i); }
      hide Represents, Distinct, Net.Valid, LedgerOk;
      ReleaseSlot(i);
    }

    /** Fills a free slot with a search whose handle has just been obtained. */
    method Occupy(i: nat, s: Search)
      requires Valid() && i < DTA_SLOTS && !searches[i].active && s.active && s.handleValid && CString(s.pattern)
      requires !Registered(T(), s.ndta)
      modifies this`touchCounter, this`touches, this`order, this`tokens, this`obtained, searches
      ensures Valid() && touches == old(touches) + 1 && obtained == old(obtained) + 1
      ensures T() == old(T())[i := s.(lastTouched := touchCounter)]
      ensures order == old(order) + [s.ndta]
    {
      ghost var t := T();
      ghost var s' := s.(lastTouched := (touchCounter + 1) % TWO_TO_32);
      OccupyFacts(t, order, touches, tokens, obtained, closeTried, confirmed, i, s');
      NextNumber(touches);
      assert |tokens| == DTA_SLOTS;
      hide Represents, LedgerOk, Net.Valid, Distinct, Registered, Agrees;
      touchCounter := (touchCounter + 1) % TWO_TO_32;
      searches[i] := s.(lastTouched := touchCounter);
      assert T() == t[i := s'];
      touches, order := touches + 1, order + [s.ndta];
      tokens, obtained := tokens[i := obtained], obtained + 1;
    }

    /** `insertTnfsDTA`: the new search replaces one of the same ndta, or takes a slot of its own. */
    method Insert(s: Search) returns (i: nat)
      requires Valid() && s.active && s.handleValid && CString(s.pattern)
      requires Key(s) in net.open
      modifies this`touchCounter, this`touches, this`order, this`tokens, this`obtained
      modifies this`closeTried, this`confirmed, searches, net`open, net`resp, net`faults
      ensures Valid() && i < DTA_SLOTS && T()[i] == s.(lastTouched := touchCounter)
      ensures touches == old(touches) + 1 && obtained == old(obtained) + 1 && net.faults >= old(net.faults)
      ensures touches < TWO_TO_32 ==> order == LruInsert(old(order), s.ndta)
      ensures forall k :: 0 <= k < DTA_SLOTS && k != i ==> T()[k] == old(T())[k]
      ensures net.open == old(net.open) || (old(T())[i].active && net.open == old(net.open) - {Key(old(T())[i])})
    {
      ghost var t, l := T(), order;
      if touches < TWO_TO_32 { InsertFacts(t, l, touches, s.ndta); }
      i := Lookup(s.ndta);
      assert |t| == DTA_SLOTS;
      if i < DTA_SLOTS {
        NotRegistered(t, i, t[i].(active := false, handleValid := false));
        hide Represents, Distinct, Net.Valid, LedgerOk, LruInsert;
        ReleaseSlot(i);
      } else {
        hide Represents, Distinct, Net.Valid, LedgerOk, LruInsert;
        i := Alloc();
        if t[i].active { StillNotRegistered(t, i, t[i].(active := false, handleValid := false), s.ndta); }
      }
      Occupy(i, s);
    }

    /** Every use of a search stamps it with the next tick. */
    method Touch(i: nat)
      requires Valid() && i < DTA_SLOTS && searches[i].active
      modifies this`touchCounter, this`touches, this`order, searches
      ensures Valid() && touches == old(touches) + 1
      ensures T() == old(T())[i := old(T())[i].(lastTouched := touchCounter)]
      ensures order == Without(old(order), old(T())[i].ndta) + [old(T())[i].ndta]
    {
      hide Represents, LedgerOk, Net.Valid;
      ghost var t := T();
      touchCounter := (touchCounter + 1) % TWO_TO_32;
      ghost var s' := t[i].(lastTouched := touchCounter);
      if touches + 1 < TWO_TO_32 { RepresentsTouch(t, order, touches, i, s'); }
      SameShape(t, tokens, obtained, closeTried, confirmed, i, s');
      hide Distinct;
      searches[i] := searches[i].(lastTouched := touchCounter);
      assert T() == t[i := s'];
      touches, order := touches + 1, Without(order, s'.ndta) + [s'.ndta];
    }

    /** The server said there is nothing after this round. */
    method MarkEof(i: nat)
      requires Valid() && i < DTA_SLOTS && searches[i].active
      modifies searches
      ensures Valid() && T() == old(T())[i := old(T())[i].(eof := true)]
    {
      hide LedgerOk, Net.Valid;
      ghost var t := T();
      ghost var s' := t[i].(eof := true);
      SameShape(t, tokens, obtained, closeTried, confirmed, i, s');
      if touches < TWO_TO_32 { SameOrder(t, order, touches, i, s'); }
      hide Distinct, Represents;
      searches[i] := searches[i].(eof := true);
      assert T() == t[i := s'];
    }

    /** READDIRX for one entry, asked again after a timeout. */
    method Ask(key: Handle) returns (answered: bool)
      requires net.Valid()
      modifies net`open, net`resp, net`faults, net`lost
      ensures net.Valid() && net.lost >= old(net.lost) && net.faults >= old(net.faults)
      ensures Reply(answered && net.Rc() in {TNFS_OK, TNFS_EOF}, net.Rc() == TNFS_EOF, net.Received(), key, old(net.open), net.open,
                    old(net.lost), net.lost, net.faults == old(net.faults) && net.prompt)
      ensures net.faults == old(net.faults) && Roomy(key, old(net.open)) ==> net.lost == old(net.lost)
    {
      StartsUnread(key, net.open, net.lost);
      hide ReadsOnly, Brings, Forward, Drained, Went, AdvancedBy, Roomy, FitsBuffer, Net.Valid, Net.Rc, Net.Received;
      var retriesLeft := RETRIES;
      while true
        invariant net.Valid() && net.lost >= old(net.lost) && net.faults >= old(net.faults)
        invariant net.faults == old(net.faults) ==> net.open == old(net.open) && net.lost == old(net.lost)
        invariant ReadsOnly(key, old(net.open), net.open, old(net.lost), net.lost)
        invariant Brings(key, old(net.open), net.open, [])
        decreases retriesLeft
      {
        ghost var was, lost := net.open, net.lost;
        var x; ghost var sent;
        x, sent := net.ReadDirX(key.0, key.1, 1);
        ghost var good := x.Answered? && net.Rc() in {TNFS_OK, TNFS_EOF};
        ReadStep(key, old(net.open), was, net.open, old(net.lost), lost, net.lost, sent, if good then net.Received() else []);
        StillOpen(key, old(net.open), net.open, old(net.lost), net.lost);
        if net.faults == old(net.faults) && Roomy(key, was) { RoomyIs(key, was, sent, net.open); }
        if x.SendFailed? { return false; }
        if x.Answered? {
          if good {
            SomethingSent(net.Received(), sent);
            SomethingHappened(key, old(net.open), net.open, net.Received(), net.Rc() == TNFS_EOF, net.prompt);
          }
          return true;
        }
        if retriesLeft <= 0 { return false; }
        retriesLeft := retriesLeft - 1;
      }
    }

    /** The entry in the buffer, if it is one GEMDOS can see. */
    method ParseOne(batch: byte, respLen: nat) returns (got: seq<Names.AtariEntry>)
      requires batch == net.Count() && respLen == |net.resp| && |net.Received()| <= 1
      ensures got == Wire.Normalized(net.Received())
    {
      NormalizedLength(net.Received());
      if batch == 0 || respLen <= 8 { return []; }
      got := Wire.FsListingParseBatch(net.resp, batch, 1);
    }

    /** One round of the search loop: None means that the search goes on. */
    method Round(i: nat, ghost s: Search) returns (r: Option<SearchResult>)
      requires Valid() && i < DTA_SLOTS && searches[i] == s && s.active
      modifies searches, net`open, net`resp, net`faults, net`lost
      ensures Valid() && net.lost >= old(net.lost) && net.faults >= old(net.faults)
      ensures T() == old(T())[i := s.(eof := T()[i].eof)]
      ensures OneRound(r, s, T()[i], old(net.open), net.open, old(net.lost), net.lost, net.faults == old(net.faults) && net.prompt)
      ensures net.faults == old(net.faults) && Roomy(Key(s), old(net.open)) ==> net.lost == old(net.lost)
    {
      assert s == T()[i] && CString(s.pattern);
      assert forall k :: k in net.open ==> GoodCursor(net.open[k]);
      hide *;
      if searches[i].eof {
        RoundAtEof(s, net.open, net.lost);
        return Some(NotFound);
      }
      var reply := Ask(Key(searches[i]));
      var rc := net.Rc();
      ghost var calm := net.faults == old(net.faults) && net.prompt;
      if !reply || (rc != TNFS_OK && rc != TNFS_EOF) {
        RoundFails(s, old(net.open), net.open, old(net.lost), net.lost, net.Received(), rc == TNFS_EOF, calm);
        return Some(Error);
      }
      r := TakeReply(i, s, rc == TNFS_EOF, old(net.open), old(net.lost), calm);
    }

    /** The answer has come: a flagged end is recorded, and the entry looked at. */
    method TakeReply(i: nat, ghost s: Search, eof: bool, ghost was: map<Handle, Cursor>, ghost lost: nat, ghost calm: bool)
      returns (r: Option<SearchResult>)
      requires Valid() && i < DTA_SLOTS && searches[i] == s && s.active && !s.eof && CString(s.pattern)
      requires Reply(true, eof, net.Received(), Key(s), was, net.open, lost, net.lost, calm)
      modifies searches
      ensures Valid() && T() == old(T())[i := s.(eof := T()[i].eof)]
      ensures OneRound(r, s, T()[i], was, net.open, lost, net.lost, calm)
    {
      assert s == T()[i];
      hide *;
      var batch, respLen := net.Count(), |net.resp|;
      ReplySize(eof, net.Received(), Key(s), was, net.open, lost, net.lost, calm);
      if eof { MarkEof(i); }
      var o := Judge(batch, respLen, searches[i].pattern, searches[i].attribs);
      RoundDone(s, T()[i], was, net.open, lost, net.lost, net.Received(), o, calm);
      return if o.Some? then Some(Found(o.value)) else None;
    }

    /** Does the entry just read answer the search? */
    method Judge(batch: byte, respLen: nat, pattern: seq<byte>, attribs: byte) returns (o: Option<Names.AtariEntry>)
      requires CString(pattern) && batch == net.Count() && respLen == |net.resp| && |net.Received()| <= 1
      ensures Judged(o, net.Received(), pattern, attribs)
    {
      hide Net.Received, Wire.Normalized, Wildcard.Glob, Names.NormalizePattern, Names.AttrMatch;
      var got := ParseOne(batch, respLen);
      GotNames(net.Received(), got);
      if got == [] { return None; }
      var matched := Names.GemdosPatternMatch(got[0].name, pattern);
      return if matched && Names.AttrMatch(got[0], attribs) then Some(got[0]) else None;
    }

    /** The rounds of `tnfs_dta_find_next_match`. */
    method Rounds(i: nat) returns (r: SearchResult)
      requires Valid() && i < DTA_SLOTS && searches[i].active
      modifies searches, net`open, net`resp, net`faults, net`lost
      ensures Valid() && net.lost >= old(net.lost) && net.faults >= old(net.faults)
      ensures T() == old(T())[i := old(T())[i].(eof := T()[i].eof)]
      ensures Outcome(r, old(T())[i], T()[i], old(net.open), net.open, old(net.lost), net.lost, net.faults == old(net.faults) && net.prompt)
      ensures net.faults == old(net.faults) && Roomy(Key(old(T())[i]), old(net.open)) ==> net.lost == old(net.lost)
    {
      ghost var t, open, lost, faults := T(), net.open, net.lost, net.faults;
      SearchingStarts(t[i], open, lost);
      ValidFacts(this);
      assert InSearch(i, t, open, lost, faults, 0) by { hide Valid, Searching; }
      hide *;
      for round := 0 to MAX_ROUNDS
        invariant InSearch(i, t, open, lost, faults, round)
      {
        var o := NextRound(i, t, open, lost, faults, round);
        if o.Some? { return o.value; }
      }
      SearchEnds(i, t, open, lost, faults);
      return Error;
    }

    /** The search in slot `i` of `t` has had so many rounds without an answer. */
    ghost predicate InSearch(i: nat, t: Table, open: map<Handle, Cursor>, lost: nat, faults: nat, rounds: nat)
      reads this, searches, net
    {
      && Valid() && i < |t| == DTA_SLOTS && t[i].active && faults <= net.faults && lost <= net.lost
      && T() == t[i := t[i].(eof := T()[i].eof)]
      && (net.faults == faults && Roomy(Key(t[i]), open) ==> net.lost == lost)
      && Searching(t[i], T()[i], open, net.open, lost, net.lost, rounds, net.faults == faults && net.prompt)
    }

    lemma SearchEnds(i: nat, t: Table, open: map<Handle, Cursor>, lost: nat, faults: nat)
      requires InSearch(i, t, open, lost, faults, MAX_ROUNDS)
      ensures Valid() && |T()| == DTA_SLOTS && faults <= net.faults && lost <= net.lost
      ensures T() == t[i := t[i].(eof := T()[i].eof)]
      ensures net.faults == faults && Roomy(Key(t[i]), open) ==> net.lost == lost
      ensures Outcome(Error, t[i], T()[i], open, net.open, lost, net.lost, net.faults == faults && net.prompt)
    {
      ValidFacts(this);
      hide Valid, Searching, Outcome, Roomy;
      SearchingEnds(t[i], T()[i], open, net.open, lost, net.lost, net.faults == faults && net.prompt);
    }

    method NextRound(i: nat, ghost t: Table, ghost open: map<Handle, Cursor>, ghost lost: nat, ghost faults: nat, ghost rounds: nat)
      returns (o: Option<SearchResult>)
      requires InSearch(i, t, open, lost, faults, rounds) && rounds < MAX_ROUNDS
      modifies searches, net`open, net`resp, net`faults, net`lost
      ensures o.None? ==> InSearch(i, t, open, lost, faults, rounds + 1)
      ensures o.Some? ==>
                && Valid() && |T()| == DTA_SLOTS && faults <= net.faults && lost <= net.lost
                && T() == t[i := t[i].(eof := T()[i].eof)]
                && (net.faults == faults && Roomy(Key(t[i]), open) ==> net.lost == lost)
                && Outcome(o.value, t[i], T()[i], open, net.open, lost, net.lost, net.faults == faults && net.prompt)
    {
      ghost var s1, open1, lost1, faults1 := T()[i], net.open, net.lost, net.faults;
      ValidFacts(this);
      hide Valid, Searching, Outcome, OneRound, Roomy;
      if Roomy(Key(t[i]), open) { SearchingRoomy(t[i], s1, open, open1, lost, lost1, rounds, faults1 == faults && net.prompt); }
      o := Round(i, s1);
      ValidFacts(this);
      SearchingNext(o, t[i], s1, T()[i], open, open1, net.open, lost, lost1, net.lost, rounds,
                    faults1 == faults && net.prompt, net.faults == faults && net.prompt);
    }

    /**
     * `tnfs_dta_find_next_match`: reads entries one at a time until one is wanted, the directory
     * ends, something fails, or the round cap is reached.
     */
    method FindNextMatch(i: nat) returns (r: SearchResult)
      requires Valid() && i < DTA_SLOTS && searches[i].active
      modifies this`touchCounter, this`touches, this`order, searches, net`open, net`resp, net`faults, net`lost
      ensures Valid() && touches == old(touches) + 1 && net.lost >= old(net.lost) && net.faults >= old(net.faults)
      ensures T() == old(T())[i := old(T())[i].(lastTouched := touchCounter, eof := T()[i].eof)]
      ensures order == Without(old(order), old(T())[i].ndta) + [old(T())[i].ndta]
      ensures Outcome(r, old(T())[i], T()[i], old(net.open), net.open, old(net.lost), net.lost, net.faults == old(net.faults) && net.prompt)
      ensures net.faults == old(net.faults) && Roomy(Key(old(T())[i]), old(net.open)) ==> net.lost == old(net.lost)
    {
      assert forall k :: k in net.open ==> GoodCursor(net.open[k]);
      hide Outcome, Net.Valid;
      ghost var s := T()[i];
      Touch(i);
      ghost var stamped := T()[i];
      var up := net.SlotUp(searches[i].runtimeSlot);
      if !up {
        NoRounds(s, stamped, net.open, net.lost);
        return Error;
      }
      r := Rounds(i);
      OutcomeStamped(r, s, stamped, T()[i], old(net.open), net.open, old(net.lost), net.lost, net.faults == old(net.faults) && net.prompt);
    }

    /** OPENDIRX, asked again after a timeout. */
    method OpenHandle(slot: int, path: seq<byte>) returns (h: Option<byte>)
      requires net.Valid()
      modifies net`open, net`resp, net`faults
      ensures net.Valid() && net.faults >= old(net.faults)
      ensures net.faults == old(net.faults) ==> (h.Some? <==> (slot, path) in net.dirs)
      ensures forall k :: k in old(net.open) ==> k in net.open && net.open[k] == old(net.open)[k]
      ensures h.Some? ==>
                && (slot, path) in net.dirs && (slot, h.value) !in old(net.open)
                && (slot, h.value) in net.open && net.open[(slot, h.value)] == Cursor(net.dirs[(slot, path)], 0, true)
    {
      var up := net.SlotUp(slot);
      if !up { return None; }
      var retriesLeft := RETRIES;
      while true
        invariant net.Valid() && net.faults >= old(net.faults) && (retriesLeft < RETRIES ==> net.faults > old(net.faults))
        invariant forall k :: k in old(net.open) ==> k in net.open && net.open[k] == old(net.open)[k]
        decreases retriesLeft
      {
        var x := net.OpenDirX(slot, path);
        if x.SendFailed? { return None; }
        if x.Answered? {
          return if net.Rc() == TNFS_OK then Some(net.Count()) else None;
        }
        if retriesLeft <= 0 { return None; }
        retriesLeft := retriesLeft - 1;
      }
    }

    /** OPENDIRX, and only then a place in the registry.  None: nothing has changed. */
    method Open(s: Search) returns (i: Option<nat>)
      requires Valid() && s.active && s.handleValid && !s.eof && CString(s.pattern)
      modifies this`touchCounter, this`touches, this`order, this`tokens, this`obtained
      modifies this`closeTried, this`confirmed, searches, net`open, net`resp, net`faults
      ensures Valid() && Keeps(old(T()), old(net.open), T(), net.open, s.ndta) && net.faults >= old(net.faults)
      ensures net.faults == old(net.faults) ==> (i.Some? <==> (s.runtimeSlot, s.path) in net.dirs)
      ensures i.None? ==>
                && T() == old(T()) && order == old(order) && touches == old(touches)
                && obtained == old(obtained) && closeTried == old(closeTried)
      ensures i.Some? ==>
                && i.value < DTA_SLOTS && searches[i.value] == s.(dirHandle := searches[i.value].dirHandle, lastTouched := touchCounter)
                && touches == old(touches) + 1 && obtained == old(obtained) + 1 && (s.runtimeSlot, s.path) in net.dirs
                && (touches < TWO_TO_32 ==> order == LruInsert(old(order), s.ndta))
                && (Live(old(T()), old(net.open)) ==>
                      Fresh(T(), net.open, i.value, net.dirs[(s.runtimeSlot, s.path)]))
    {
      ghost var t, open := T(), net.open;
      hide *;
      var h := OpenHandle(s.runtimeSlot, s.path);
      if h.None? {
        KeepsOpen(t, open, net.open, s.ndta);
        return None;
      }
      var s1 := s.(dirHandle := h.value);
      ghost var open1 := net.open;
      KeyOf(s, h.value);
      var k := Insert(s1);
      ValidFacts(this);
      InsertKeeps(t, open, open1, k, T(), net.open);
      InsertClean(t, open, open1, k, T(), net.open);
      return Some(k);
    }

    /** One answer for the search in slot `i`, said in terms of what the search owes. */
    method Advance(i: nat, ghost s: Search) returns (r: SearchResult)
      requires Valid() && i < DTA_SLOTS && searches[i] == s && s.active
      modifies this`touchCounter, this`touches, this`order, searches, net`open, net`resp, net`faults, net`lost
      ensures Valid() && touches == old(touches) + 1 && net.lost >= old(net.lost) && net.faults >= old(net.faults)
      ensures order == Without(old(order), s.ndta) + [s.ndta]
      ensures net.lost == old(net.lost) ==> Tells(r, old(T()), old(net.open), s.ndta, net.faults == old(net.faults) && net.prompt)
      ensures Keeps(old(T()), old(net.open), T(), net.open, s.ndta)
      ensures Registered(T(), s.ndta)
      ensures Pays(r, old(T()), old(net.open), T(), net.open, s.ndta, old(net.lost), net.lost)
      ensures net.faults == old(net.faults) && Roomy(Key(s), old(net.open)) ==> net.lost == old(net.lost)
    {
      ghost var t, open := T(), net.open;
      ValidFacts(this);
      hide *;
      r := FindNextMatch(i);
      ValidFacts(this);
      FindKeeps(t, open, i, T(), net.open, old(net.lost), net.lost);
      FindPays(r, t, open, i, T(), net.open, old(net.lost), net.lost, net.faults == old(net.faults) && net.prompt);
      if r.Error? && net.faults == old(net.faults) && net.prompt && net.lost == old(net.lost) {
        FindTires(t, open, i, T(), net.open, net.lost);
      }
      if net.lost == old(net.lost) {
        PaysTells(r, t, open, T(), net.open, s.ndta, net.lost, net.faults == old(net.faults) && net.prompt);
      }
    }

    /** The search under `ndta` is dropped unless `keep`; the others stay. */
    method Settle(ndta: dword, keep: bool)
      requires Valid() && Registered(T(), ndta)
      modifies this`order, this`closeTried, this`confirmed, searches, net`open, net`resp, net`faults
      ensures Valid() && Keeps(old(T()), old(net.open), T(), net.open, ndta) && net.faults >= old(net.faults)
      ensures keep ==> T() == old(T()) && order == old(order) && net.open == old(net.open)
      ensures !keep ==> !Registered(T(), ndta) && order == Without(old(order), ndta)
    {
      ghost var t, open := T(), net.open;
      hide *;
      if keep {
        KeepsOpen(t, open, open, ndta);
      } else {
        ValidFacts(this);
        Release(ndta);
        ValidFacts(this);
        ReleaseKeeps(t, open, T(), net.open, ndta);
      }
    }

    /**
     * Fsfirst (`sidetnfs_tnfs_dta_start`).  `registered` says whether the search got as far as the
     * registry; if not, nothing has changed.
     */
    method Start(ndta: dword, slot: int, path: seq<byte>, pattern: seq<byte>, attribs: byte)
      returns (r: SearchResult, ghost registered: bool)
      requires Valid() && CString(pattern)
      modifies this`touchCounter, this`touches, this`order, this`tokens, this`obtained
      modifies this`closeTried, this`confirmed, searches, net`open, net`resp, net`faults, net`lost
      ensures Valid() && net.lost >= old(net.lost) && net.faults >= old(net.faults)
      ensures Keeps(old(T()), old(net.open), T(), net.open, ndta)
      ensures net.faults == old(net.faults) ==> (registered <==> (slot, CutPath(path)) in net.dirs)
      ensures net.faults == old(net.faults) && registered && Live(old(T()), old(net.open)) && AnswersFit(net.dirs[(slot, CutPath(path))], 1) ==>
                net.lost == old(net.lost)
      ensures !registered ==>
                && r == Error && T() == old(T()) && order == old(order) && touches == old(touches)
                && obtained == old(obtained) && closeTried == old(closeTried)
      ensures registered ==>
                && obtained == old(obtained) + 1 && (slot, CutPath(path)) in net.dirs
                && (Registered(T(), ndta) <==> Stays(r, pattern))
                && (touches < TWO_TO_32 ==>
                      order == if Stays(r, pattern) then LruInsert(old(order), ndta) else Without(LruInsert(old(order), ndta), ndta))
      ensures registered && Live(old(T()), old(net.open)) && net.lost == old(net.lost) ==>
                FirstAnswer(r, net.dirs[(slot, CutPath(path))], CutPattern(pattern), attribs, T(), net.open, ndta, pattern,
                            net.faults == old(net.faults) && net.prompt)
    {
      ghost var t, open, l := T(), net.open, order;
      CutIsCString(pattern);
      hide *;
      var s := Search(true, ndta, CutPath(path), CutPattern(pattern), attribs, 0, false, true, slot, 0);
      var i := Open(s);
      if i.None? { return Error, false; }
      ghost var t1, open1, faults1 := T(), net.open, net.faults;
      r := FirstAdvance(i.value, searches[i.value], pattern, net.dirs[(slot, CutPath(path))]);
      SettledAfterInsert(l, ndta, Stays(r, pattern));
      KeepsChain(t, open, t1, open1, T(), net.open, ndta);
      if Live(t, open) && AnswersFit(net.dirs[(slot, CutPath(path))], 1) {
        FreshIsRoomy(t1, open1, i.value, net.dirs[(slot, CutPath(path))]);
      }
      if Live(t, open) && net.lost == old(net.lost) {
        FirstSaysFacts(r, t1, open1, i.value, net.dirs[(slot, CutPath(path))], T(), net.open, pattern, old(net.lost), net.lost,
                       net.faults == faults1 && net.prompt);
      }
      return r, true;
    }

    /** The first answer of a search just registered in slot `i`; it stays open only for a wildcard pattern. */
    method FirstAdvance(i: nat, s: Search, pattern: seq<byte>, ghost dir: seq<Names.Entry>) returns (r: SearchResult)
      requires Valid() && i < DTA_SLOTS && searches[i] == s && s.active
      modifies this`touchCounter, this`touches, this`order
      modifies this`closeTried, this`confirmed, searches, net`open, net`resp, net`faults, net`lost
      ensures Valid() && touches == old(touches) + 1 && net.lost >= old(net.lost) && net.faults >= old(net.faults)
      ensures Keeps(old(T()), old(net.open), T(), net.open, s.ndta)
      ensures Registered(T(), s.ndta) <==> Stays(r, pattern)
      ensures order == Settled(old(order), s.ndta, Stays(r, pattern))
      ensures FirstSays(r, old(T()), old(net.open), i, dir, T(), net.open, pattern, old(net.lost), net.lost,
                        net.faults == old(net.faults) && net.prompt)
      ensures net.faults == old(net.faults) && Roomy(Key(s), old(net.open)) ==> net.lost == old(net.lost)
    {
      ghost var t1, open1 := T(), net.open;
      ValidFacts(this);
      assert |T()| == DTA_SLOTS;
      hide *;
      ghost var t2, open2;
      r, t2, open2 := AdvanceOnce(i, s, STAR in pattern || QUERY in pattern);
      StaysIs(r, pattern);
      FirstPays(r, t1, open1, i, t2, open2, dir, old(net.lost), net.lost, T(), net.open, pattern, net.faults == old(net.faults) && net.prompt);
    }

    /** One answer, after which the search is dropped unless it found something and is `kept`; `t2` and `open2` lie in between. */
    method AdvanceOnce(i: nat, s: Search, kept: bool)
      returns (r: SearchResult, ghost t2: Table, ghost open2: map<Handle, Cursor>)
      requires Valid() && i < DTA_SLOTS && searches[i] == s && s.active
      modifies this`touchCounter, this`touches, this`order
      modifies this`closeTried, this`confirmed, searches, net`open, net`resp, net`faults, net`lost
      ensures Valid() && touches == old(touches) + 1 && net.lost >= old(net.lost) && net.faults >= old(net.faults)
      ensures Keeps(old(T()), old(net.open), T(), net.open, s.ndta)
      ensures Registered(T(), s.ndta) <==> r.Found? && kept
      ensures order == Settled(old(order), s.ndta, r.Found? && kept)
      ensures Pays(r, old(T()), old(net.open), t2, open2, s.ndta, old(net.lost), net.lost)
      ensures net.lost == old(net.lost) ==> Tells(r, old(T()), old(net.open), s.ndta, net.faults == old(net.faults) && net.prompt)
      ensures r.Found? && kept ==> T() == t2 && net.open == open2
      ensures net.faults == old(net.faults) && Roomy(Key(s), old(net.open)) ==> net.lost == old(net.lost)
    {
      ghost var t1, open1 := T(), net.open;
      hide *;
      r := Advance(i, s);
      t2, open2 := T(), net.open;
      ghost var calm := net.faults == old(net.faults) && net.prompt;
      Settle(s.ndta, r.Found? && kept);
      if net.lost == old(net.lost) { TellsLess(r, t1, open1, s.ndta, calm, net.faults == old(net.faults) && net.prompt); }
      SettledIs(old(order), s.ndta, r.Found? && kept);
      KeepsChain(t1, open1, t2, open2, T(), net.open, s.ndta);
    }

    /** Fsnext (`sidetnfs_tnfs_dta_next`).  Anything but a found entry ends the search. */
    method Next(ndta: dword) returns (r: SearchResult)
      requires Valid()
      modifies this`touchCounter, this`touches, this`order
      modifies this`closeTried, this`confirmed, searches, net`open, net`resp, net`faults, net`lost
      ensures Valid() && net.lost >= old(net.lost) && net.faults >= old(net.faults)
      ensures Keeps(old(T()), old(net.open), T(), net.open, ndta)
      ensures !Registered(old(T()), ndta) ==> r == Error && T() == old(T()) && order == old(order) && touches == old(touches)
      ensures net.faults == old(net.faults) && RoomyFor(old(T()), old(net.open), ndta) ==> net.lost == old(net.lost)
      ensures Registered(old(T()), ndta) ==>
                && touches == old(touches) + 1
                && (Registered(T(), ndta) <==> r.Found?)
                && order == AfterUse(old(order), ndta, r)
                && (r.Found? ==> Pays(r, old(T()), old(net.open), T(), net.open, ndta, old(net.lost), net.lost))
                && (net.lost == old(net.lost) ==> Tells(r, old(T()), old(net.open), ndta, net.faults == old(net.faults) && net.prompt))
    {
      ghost var t, open, l := T(), net.open, order;
      ValidFacts(this);
      SlotOf(t, ndta);
      AfterUseFacts(l, ndta);
      hide *;
      var i := Lookup(ndta);
      if i >= DTA_SLOTS {
        KeepsOpen(t, open, open, ndta);
        return Error;
      }
      if RoomyFor(t, open, ndta) { RoomyForSlot(t, open, i); }
      r := Advance(i, searches[i]);
      ghost var t1, open1 := T(), net.open;
      Settle(ndta, r.Found?);
      KeepsChain(t, open, t1, open1, T(), net.open, ndta);
    }

    /**
     * A caller that lists a directory: Fsfirst, then Fsnext for as long as entries are found.
     * `complete` says that the listing ended with NOT_FOUND.
     */
    method List(ndta: dword, slot: int, path: seq<byte>, pattern: seq<byte>, attribs: byte)
      returns (all: seq<Names.AtariEntry>, complete: bool)
      requires Valid() && CString(pattern) && (STAR in pattern || QUERY in pattern)
      modifies this`touchCounter, this`touches, this`order, this`tokens, this`obtained
      modifies this`closeTried, this`confirmed, searches, net`open, net`resp, net`faults, net`lost
      ensures Valid() && (complete ==> !Registered(T(), ndta))
      ensures Keeps(old(T()), old(net.open), T(), net.open, ndta)
      ensures Live(old(T()), old(net.open)) && net.faults == old(net.faults) && (slot, CutPath(path)) in net.dirs ==>
                var dir, cut := net.dirs[(slot, CutPath(path))], CutPattern(pattern);
                AnswersFit(dir, 1) ==>
                  net.lost == old(net.lost) && (net.prompt && Dense(dir, cut, attribs) ==> complete && all == Names.Matches(dir, cut, attribs))
      ensures Live(old(T()), old(net.open)) && net.lost == old(net.lost) && (slot, CutPath(path)) in net.dirs ==>
                var dir, cut := net.dirs[(slot, CutPath(path))], CutPattern(pattern);
                && all <= Names.Matches(dir, cut, attribs)
                && (complete ==> all == Names.Matches(dir, cut, attribs) && Listable(dir, cut, attribs))
                && (net.faults == old(net.faults) && net.prompt && Dense(dir, cut, attribs) ==> complete)
                && (complete && pattern == [42, 46, 42] ==> Names.FoldersFound(all, dir, attribs))
      ensures complete ==> (slot, CutPath(path)) in net.dirs
    {
      ghost var t, open, lost, faults := T(), net.open, net.lost, net.faults;
      hide *;
      var r; ghost var registered;
      r, registered := Start(ndta, slot, path, pattern, attribs);
      ghost var dir, cut := if registered then net.dirs[(slot, CutPath(path))] else [], CutPattern(pattern);
      ghost var sound, begun := registered && Live(t, open), net.faults;
      WildStays(r, pattern);
      if sound && net.lost == lost { ListingStarts(r, dir, cut, attribs, T(), net.open, ndta, pattern, net.faults == faults && net.prompt); }
      all := [];
      if registered { ListingIsOn(ndta, r, [], dir, cut, attribs, t, open, lost, faults, begun, sound); }
      while r.Found?
        invariant if registered then InListing(ndta, r, all, dir, cut, attribs, t, open, lost, faults, begun, sound) else r == Error && all == []
        invariant !registered ==> Valid() && net.lost >= lost && net.faults == begun && Keeps(t, open, T(), net.open, ndta)
        decreases if r.Found? then 1 + Left(T(), net.open, ndta) else 0
      {
        var e := r;
        r := ListNext(ndta, e, all, dir, cut, attribs, t, open, lost, faults, begun, sound);
        all := all + [e.entry];
      }
      complete := r.NotFound?;
      if registered { ListingIsOver(ndta, r, all, dir, cut, attribs, t, open, lost, faults, begun, sound); }
      StarDotStarIsKept(pattern);
      Names.StarDotStarFindsFolders(dir, attribs);
    }

    /** A listing that began in `t` and `open` has come this far; `sound` if the server knew every handle then. */
    ghost predicate InListing(ndta: dword, r: SearchResult, all: seq<Names.AtariEntry>, dir: seq<Names.Entry>, cut: seq<byte>, attribs: byte,
                              t: Table, open: map<Handle, Cursor>, lost: nat, faults: nat, begun: nat, sound: bool)
      reads this, searches, net
    {
      && Valid() && lost <= net.lost && begun <= net.faults && Keeps(t, open, T(), net.open, ndta)
      && (Registered(T(), ndta) <==> r.Found?)
      && (sound && AnswersFit(dir, 1) && net.faults == faults ==> net.lost == lost)
      && (sound && net.lost == lost ==>
            && Listing(r, all, dir, cut, attribs, T(), net.open, ndta)
            && (net.faults == faults && net.prompt && Dense(dir, cut, attribs) ==> !r.Error?))
    }

    lemma ListingIsOn(ndta: dword, r: SearchResult, all: seq<Names.AtariEntry>, dir: seq<Names.Entry>, cut: seq<byte>, attribs: byte,
                      t: Table, open: map<Handle, Cursor>, lost: nat, faults: nat, begun: nat, sound: bool)
      requires Valid() && lost <= net.lost && begun <= net.faults && Keeps(t, open, T(), net.open, ndta)
      requires Registered(T(), ndta) <==> r.Found?
      requires sound && AnswersFit(dir, 1) && net.faults == faults ==> net.lost == lost
      requires sound && net.lost == lost ==> Listing(r, all, dir, cut, attribs, T(), net.open, ndta)
      requires sound && net.lost == lost && net.faults == faults && net.prompt && Dense(dir, cut, attribs) ==> !r.Error?
      ensures InListing(ndta, r, all, dir, cut, attribs, t, open, lost, faults, begun, sound)
    {
      hide Valid, Keeps, Registered, Listing, Dense, AnswersFit;
    }

    lemma ListingIsOver(ndta: dword, r: SearchResult, all: seq<Names.AtariEntry>, dir: seq<Names.Entry>, cut: seq<byte>, attribs: byte,
                        t: Table, open: map<Handle, Cursor>, lost: nat, faults: nat, begun: nat, sound: bool)
      requires InListing(ndta, r, all, dir, cut, attribs, t, open, lost, faults, begun, sound) && !r.Found?
      ensures Valid() && begun <= net.faults && Keeps(t, open, T(), net.open, ndta) && !Registered(T(), ndta)
      ensures sound && AnswersFit(dir, 1) && net.faults == faults ==> net.lost == lost
      ensures sound && net.lost == lost ==>
                && all <= Names.Matches(dir, cut, attribs)
                && (r.NotFound? ==> all == Names.Matches(dir, cut, attribs) && Listable(dir, cut, attribs))
                && (net.faults == faults && net.prompt && Dense(dir, cut, attribs) ==> r.NotFound?)
    {
      hide Valid, Keeps, Registered, Dense, AnswersFit, Listable, Listing, Names.Matches;
      if sound && net.lost == lost { ListingEnds(r, all, dir, cut, attribs, T(), net.open, ndta); }
    }

    /** One more Fsnext of a listing. */
    method ListNext(ndta: dword, ghost e: SearchResult, ghost all: seq<Names.AtariEntry>, ghost dir: seq<Names.Entry>, ghost cut: seq<byte>,
                    ghost attribs: byte, ghost t: Table, ghost open: map<Handle, Cursor>, ghost lost: nat, ghost faults: nat, ghost begun: nat,
                    ghost sound: bool)
      returns (r: SearchResult)
      requires e.Found? && InListing(ndta, e, all, dir, cut, attribs, t, open, lost, faults, begun, sound) && faults <= begun
      modifies this`touchCounter, this`touches, this`order
      modifies this`closeTried, this`confirmed, searches, net`open, net`resp, net`faults, net`lost
      ensures InListing(ndta, r, all + [e.entry], dir, cut, attribs, t, open, lost, faults, begun, sound)
      ensures r.Found? ==> Left(T(), net.open, ndta) < old(Left(T(), net.open, ndta))
    {
      ghost var t1, open1, lost1, faults1 := T(), net.open, net.lost, net.faults;
      hide Valid, Keeps, Registered, Listing, Dense, AnswersFit, Left, Pays, Tells, RoomyFor, T;
      if sound && AnswersFit(dir, 1) && net.lost == lost { ListingIsRoomy(e, all, dir, cut, attribs, t1, open1, ndta); }
      r := Next(ndta);
      KeepsChain(t, open, t1, open1, T(), net.open, ndta);
      if r.Found? { LeftDecreases(r, t1, open1, T(), net.open, ndta, lost1, net.lost); }
      if sound && net.lost == lost {
        ListingGoesOn(e, r, all, dir, cut, attribs, t1, open1, T(), net.open, ndta, lost, net.faults == faults1 && net.prompt);
      }
    }

    /** One CLOSEDIR request, and the search is dropped only if the server confirms the close. */
    method CloseConfirmed(i: nat) returns (closed: bool)
      requires Valid() && i < DTA_SLOTS && searches[i].active
      modifies this`order, this`closeTried, this`confirmed, searches, net`open, net`resp, net`faults
      ensures Valid() && closeTried <= old(closeTried) + {tokens[i]}
      ensures net.faults >= old(net.faults) && (!closed && Key(old(T())[i]) in old(net.open) ==> net.faults > old(net.faults))
      ensures closed ==>
                && T() == old(T())[i := old(T())[i].(active := false, handleValid := false)]
                && confirmed == old(confirmed) + {tokens[i]} && Key(old(T())[i]) !in net.open
                && order == Without(old(order), old(T())[i].ndta)
      ensures !closed ==> T() == old(T()) && confirmed == old(confirmed) && order == old(order)
      ensures net.open == old(net.open) || net.open == old(net.open) - {Key(old(T())[i])}
    {
      hide Represents, Distinct, Net.Valid;
      var slot, handle := searches[i].runtimeSlot, searches[i].dirHandle;
      var up := net.SlotUp(slot);
      if !up { return false; }
      LedgerTry(T(), tokens, obtained, closeTried, confirmed, tokens[i]);
      var x := net.CloseDirX(slot, handle);
      if x.SendFailed? { return false; }
      closeTried := closeTried + {tokens[i]};
      if !x.Answered? || net.Rc() != TNFS_OK { return false; }
      assert confirmed + {tokens[i]} - {tokens[i]} == confirmed;
      confirmed := confirmed + {tokens[i]};
      Vacate(i);
      return true;
    }

    /**
     * The close before RMDIR (`sidetnfs_tnfs_dta_close_by_path`): true exactly when no search on
     * this slot and path is left open, and no other search is touched.
     */
    method CloseByPath(slot: int, path: seq<byte>) returns (allOk: bool, matches: nat)
      requires Valid()
      modifies this`order, this`closeTried, this`confirmed, searches, net`open, net`resp, net`faults
      ensures Valid() && (slot >= 0 ==> (allOk <==> forall k :: 0 <= k < DTA_SLOTS ==> !OnPath(T()[k], slot, path)))
      ensures slot < 0 ==> allOk && matches == 0 && T() == old(T()) && net.open == old(net.open)
      ensures slot >= 0 ==> matches == CountOnPath(old(T()), slot, path)
      ensures Closed(old(T()), T(), slot, path)
      ensures ClosesOnly(old(T()), old(net.open), net.open, slot, path)
      ensures allOk && Live(old(T()), old(net.open)) ==> Live(T(), net.open)
      ensures Live(old(T()), old(net.open)) && net.faults == old(net.faults) ==> allOk
    {
      ghost var t, open := T(), net.open;
      allOk, matches := true, 0;
      SweptNone(t, open, slot, path);
      ValidFacts(this);
      if slot < 0 { return; }
      hide *;
      for i := 0 to DTA_SLOTS
        invariant Valid() && Swept(t, open, T(), net.open, i, slot, path, allOk, matches) && net.faults >= old(net.faults)
        invariant Live(t, open) && net.faults == old(net.faults) ==> allOk
      {
        ghost var t1, open1 := T(), net.open;
        ValidFacts(this);
        OnPathFacts(T()[i], slot, path);
        if searches[i].active && searches[i].runtimeSlot == slot && searches[i].path == path {
          SweptStillOpen(t, open, t1, open1, i, slot, path, allOk, matches);
          var closed := CloseConfirmed(i);
          SweptOne(t, open, t1, open1, T(), net.open, i, slot, path, allOk, matches, closed);
          matches := matches + 1;
          if !closed { allOk := false; }
        } else {
          SweptOther(t, open, t1, open1, i, slot, path, allOk, matches);
        }
      }
      ValidFacts(this);
      SweptAll(t, open, T(), net.open, slot, path, allOk, matches);
    }

    /** `sidetnfs_tnfs_dta_release_all`. */
    method ReleaseAll()
      requires Valid()
      modifies this`order, this`closeTried, this`confirmed, searches, net`open, net`resp, net`faults
      ensures Valid() && forall k :: 0 <= k < DTA_SLOTS ==> !searches[k].active
      ensures forall k :: 0 <= k < obtained ==> k in closeTried
    {
      for i := 0 to DTA_SLOTS
        invariant Valid() && forall k :: 0 <= k < i ==> !searches[k].active
      {
        hide Represents, Distinct, Net.Valid, LedgerOk;
        if searches[i].active { ReleaseSlot(i); }
      }
      forall k | 0 <= k < obtained ensures k in closeTried {
        assert !Held(T(), tokens, k);
      }
    }
  }

  lemma ValidFacts(r: Registry)
    requires r.Valid()
    ensures r.T() == r.searches[..] && |r.T()| == DTA_SLOTS && Distinct(r.T())
  {
  }
}
