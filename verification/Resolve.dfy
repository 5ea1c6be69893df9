/**
 * Address lookups of the runtime slots (sidetnfs_resolve.c, 50-117; sidetnfs_probe.c, 2623-2743): a
 * resolver that cannot be cancelled may answer at any later time, and every answer carries the
 * number of the lookup it belongs to.
 */
module Resolve {
  import opened Words
  import Ipv4

  const SLOTS: nat := 10
  const STEP_MS: nat := 10
  const TIMEOUT_MS: nat := 4000
  const MAX_TICKS: nat := 400

  datatype LookupState = Idle | Pending | Done | Failed

  /** `sidetnfs_resolve_t` */
  datatype Lookup = Lookup(state: LookupState, addr: dword, elapsedMs: dword, requestId: dword, slot: int)

  /** A resolver callback: the lookup it answers, and the address unless it failed. */
  datatype Answer = Answer(requestId: dword, addr: Option<dword>)

  /** How `dns_gethostbyname` can return. */
  datatype Reply = Cached(addr: dword) | InProgress | Refused

  /** `sidetnfs_resolve_accepts` */
  predicate Accepts(r: Lookup, id: dword) {
    r.state == Pending && r.requestId == id
  }

  /** `sidetnfs_resolve_complete` */
  function Complete(r: Lookup, a: Answer): Lookup {
    if !Accepts(r, a.requestId) then r
    else if a.addr.Some? then r.(addr := a.addr.value, state := Done)
    else r.(addr := 0, state := Failed)
  }

  /** `sidetnfs_resolve_reset`, then `sidetnfs_resolve_begin`. */
  function Begin(slot: int, id: dword): Lookup {
    Lookup(Pending, 0, 0, id, slot)
  }

  /** `sidetnfs_resolve_tick` */
  function Ticked(r: Lookup): Lookup {
    if r.state != Pending then r
    else
      var elapsed := (r.elapsedMs + STEP_MS) % TWO_TO_32;
      r.(elapsedMs := elapsed, state := if elapsed >= TIMEOUT_MS then Failed else Pending)
  }

  /** The first of these answers that is for lookup `id`. */
  function FirstFor(answers: seq<Answer>, id: dword): Option<Answer> {
    if answers == [] then None
    else if answers[0].requestId == id then Some(answers[0])
    else FirstFor(answers[1..], id)
  }

  lemma {:induction false} FirstForAppend(a: seq<Answer>, b: seq<Answer>, id: dword)
    ensures FirstFor(a + b, id) == if FirstFor(a, id).Some? then FirstFor(a, id) else FirstFor(b, id)
  {
    if a == [] {
      assert a + b == b;
    } else {
      assert (a + b)[1..] == a[1..] + b;
      FirstForAppend(a[1..], b, id);
    }
  }

  function Flatten(polls: seq<seq<Answer>>): seq<Answer> {
    if polls == [] then [] else Flatten(polls[..|polls| - 1]) + polls[|polls| - 1]
  }

  class Slots {
    const lookups: array<Lookup>
    var nextId: dword

    // Which slot each lookup was started for; a number is used once.
    ghost var owner: map<dword, nat>

    ghost predicate Valid()
      reads this, lookups
    {
      && lookups.Length == SLOTS && nextId >= 1
      && (forall id :: id in owner <==> 1 <= id < nextId) && (forall id :: id in owner ==> owner[id] < SLOTS)
      && (forall k :: 0 <= k < SLOTS && lookups[k].state == Pending ==>
            lookups[k].requestId in owner && owner[lookups[k].requestId] == k)
    }

    constructor ()
      ensures Valid() && fresh(lookups) && nextId == 1 && Quiet()
    {
      lookups := new Lookup[SLOTS](k => Lookup(Idle, 0, 0, 0, k));
      nextId, owner := 1, map[];
    }

    /** Nobody is waiting for an answer. */
    ghost predicate Quiet()
      reads this, lookups
    {
      forall k :: 0 <= k < lookups.Length ==> lookups[k].state != Pending
    }

    /** A lookup is started for a slot; whatever the slot waited for before is abandoned. */
    method Start(slot: nat) returns (id: dword)
      requires Valid() && slot < SLOTS && nextId < 0xFFFF_FFFF
      modifies this, lookups
      ensures Valid() && id == old(nextId) && nextId == old(nextId) + 1 && id !in old(owner) && owner == old(owner)[id := slot]
      ensures lookups[..] == old(lookups[..])[slot := Begin(slot, id)]
    {
      id := nextId;
      nextId := nextId + 1;
      lookups[slot] := Begin(slot, id);
      owner := owner[id := slot];
    }

    /** One poll interval passes for a slot. */
    method Tick(slot: nat)
      requires Valid() && slot < SLOTS
      modifies lookups
      ensures Valid() && lookups[..] == old(lookups[..])[slot := Ticked(old(lookups[slot]))]
    {
      lookups[slot] := Ticked(lookups[slot]);
    }

    /**
     * `slot_dns_found_callback`, at any time, for any number.  At most the slot that started this
     * very lookup changes, and only if it is still waiting for it.
     */
    method Found(a: Answer)
      requires Valid()
      modifies lookups
      ensures Valid()
      ensures lookups[..] == if a.requestId in owner then old(lookups[..])[owner[a.requestId] := Complete(old(lookups[owner[a.requestId]]), a)]
                             else old(lookups[..])
    {
      for slot := 0 to SLOTS
        invariant forall k :: 0 <= k < slot ==> !Accepts(lookups[k], a.requestId)
        invariant lookups[..] == old(lookups[..])
      {
        if Accepts(lookups[slot], a.requestId) {
          lookups[slot] := Complete(lookups[slot], a);
          assert lookups[..] == old(lookups[..])[slot := Complete(old(lookups[slot]), a)];
          return;
        }
      }
      if a.requestId in owner {
        assert old(lookups[..])[owner[a.requestId] := Complete(old(lookups[owner[a.requestId]]), a)] == old(lookups[..]);
      }
    }

    /** Nobody but `slot` is waiting. */
    ghost predicate OnlyWaiting(slot: nat)
      reads this, lookups
    {
      forall k :: 0 <= k < lookups.Length && k != slot ==> lookups[k].state != Pending
    }

    /** `cyw43_arch_poll`: every answer that has come in is handed to the callback. */
    method Poll(slot: nat, answers: seq<Answer>)
      requires Valid() && slot < SLOTS && OnlyWaiting(slot)
      modifies lookups
      ensures Valid() && OnlyWaiting(slot)
      ensures lookups[..] == old(lookups[..])[slot := CompleteAll(old(lookups[slot]), answers)]
    {
      for i := 0 to |answers|
        invariant Valid() && OnlyWaiting(slot)
        invariant lookups[..] == old(lookups[..])[slot := lookups[slot]]
        invariant CompleteAll(lookups[slot], answers[i..]) == CompleteAll(old(lookups[slot]), answers)
      {
        assert answers[i..][1..] == answers[i + 1..];
        ghost var was := lookups[..];
        Found(answers[i]);
        OthersIgnore(was, slot, answers[i]);
      }
    }

    lemma OthersIgnore(was: seq<Lookup>, slot: nat, a: Answer)
      requires Valid() && slot < SLOTS && |was| == SLOTS
      requires forall k :: 0 <= k < SLOTS && k != slot ==> was[k].state != Pending
      requires was[slot].state == Pending ==> was[slot].requestId in owner && owner[was[slot].requestId] == slot
      requires lookups[..] == if a.requestId in owner then was[owner[a.requestId] := Complete(was[owner[a.requestId]], a)] else was
      ensures lookups[..] == was[slot := Complete(was[slot], a)] && OnlyWaiting(slot)
    {
      assert lookups[..] == was[slot := Complete(was[slot], a)];
      forall k | 0 <= k < SLOTS && k != slot ensures lookups[k].state != Pending { assert lookups[..][k] == was[k]; }
    }

    /** The wait: polls and ticks until an answer or the timeout. */
    method Await(slot: nat, id: dword, polls: seq<seq<Answer>>)
      requires Valid() && slot < SLOTS && OnlyWaiting(slot) && |polls| == MAX_TICKS
      requires lookups[slot] == Begin(slot, id) && id in owner && owner[id] == slot
      modifies lookups
      ensures Valid() && Quiet()
      ensures lookups[..] == old(lookups[..])[slot := lookups[slot]]
      ensures Waited(lookups[slot], id, FirstFor(Flatten(polls), id), MAX_TICKS)
    {
      var i := 0;
      NothingYet(slot, id, polls);
      while lookups[slot].state == Pending
        invariant 0 <= i <= MAX_TICKS && Valid() && OnlyWaiting(slot)
        invariant lookups[..] == old(lookups[..])[slot := lookups[slot]]
        invariant Waited(lookups[slot], id, FirstFor(Flatten(polls[..i]), id), i)
        decreases MAX_TICKS - i
      {
        ghost var l := lookups[slot];
        Poll(slot, polls[i]);
        Tick(slot);
        WaitedNext(l, id, polls, i);
        i := i + 1;
      }
      WaitedAll(lookups[slot], id, polls, i);
    }

    /**
     * `ensure_slot_address`.  `otherForm` is what `ipaddr_aton` makes of a host that is no dotted
     * quad, `reply` and `polls` what the resolver does.
     */
    method EnsureAddress(slot: int, host: seq<byte>, otherForm: Option<dword>, reply: Reply, polls: seq<seq<Answer>>) returns (ok: bool)
      requires Valid() && Quiet() && CString(host) && nextId < 0xFFFF_FFFF && |polls| == 400
      modifies this, lookups
      ensures Valid() && Quiet()
      ensures !(0 <= slot < 10) ==> !ok && lookups[..] == old(lookups[..])
      ensures 0 <= slot < 10 ==>
                && lookups[..] == old(lookups[..])[slot := lookups[slot]]
                && (ok <==> lookups[slot].state == Done)
                && AddressOf(old(lookups[slot]), lookups[slot], host, otherForm, reply,
                             old(nextId), FirstFor(Flatten(polls), old(nextId)))
    {
      if slot < 0 || slot >= SLOTS { return false; }
      if lookups[slot].state == Done {
        assert lookups[..] == lookups[..][slot := lookups[slot]];
        return true;
      }
      var literal := Ipv4.ParseIpv4(host);
      hide Ipv4.IsLiteral, Waited, FirstFor, Flatten;
      if literal.None? && otherForm.None? && host == [] {
        assert lookups[..] == lookups[..][slot := lookups[slot]];
        return false;
      }
      var id := Start(slot);
      if literal.Some? {
        Settle(slot, id, literal);
      } else if otherForm.Some? {
        Settle(slot, id, otherForm);
      } else {
        match reply {
          case Cached(a) => Settle(slot, id, Some(a));
          case Refused => Settle(slot, id, None);
          case InProgress => Await(slot, id, polls);
        }
      }
      ok := lookups[slot].state == Done;
    }

    /** An answer that is there at once. */
    method Settle(slot: nat, id: dword, addr: Option<dword>)
      requires Valid() && slot < SLOTS && OnlyWaiting(slot) && lookups[slot] == Begin(slot, id)
      modifies lookups
      ensures Valid() && Quiet()
      ensures lookups[..] == old(lookups[..])[slot := Complete(Begin(slot, id), Answer(id, addr))]
    {
      lookups[slot] := Complete(lookups[slot], Answer(id, addr));
    }
  }

  /** What the slot's lookup says afterwards. */
  ghost predicate AddressOf(before: Lookup, after: Lookup, host: seq<byte>, otherForm: Option<dword>, reply: Reply,
                            id: dword, first: Option<Answer>) {
    if before.state == Done then after == before
    else if exists a :: Ipv4.IsLiteral(host, a) then after.state == Done && Ipv4.IsLiteral(host, after.addr)
    else if otherForm.Some? then after.state == Done && after.addr == otherForm.value
    else if host == [] then after == before
    else
      match reply
      case Cached(a) => after.state == Done && after.addr == a
      case Refused => after.state == Failed
      case InProgress => Waited(after, id, first, MAX_TICKS)
  }

  function CompleteAll(r: Lookup, answers: seq<Answer>): Lookup
    decreases |answers|
  {
    if answers == [] then r else CompleteAll(Complete(r, answers[0]), answers[1..])
  }

  /** A lookup after `i` polls, `first` being the first answer for it that has come in. */
  ghost predicate Waited(r: Lookup, id: dword, first: Option<Answer>, i: nat) {
    match first
    case None => r.requestId == id && r.elapsedMs == STEP_MS * i && r.state == if i < MAX_TICKS then Pending else Failed
    case Some(a) =>
      match a.addr
      case None => r.state == Failed
      case Some(addr) => r.state == Done && r.addr == addr
  }

  lemma {:induction false} CompleteAllFirst(r: Lookup, answers: seq<Answer>)
    ensures CompleteAll(r, answers) ==
            if r.state == Pending && FirstFor(answers, r.requestId).Some? then Complete(r, FirstFor(answers, r.requestId).value) else r
    ensures forall id :: FirstFor(answers, id).Some? ==> FirstFor(answers, id).value.requestId == id
    decreases |answers|
  {
    if answers != [] { CompleteAllFirst(Complete(r, answers[0]), answers[1..]); }
  }

  lemma NothingYet(slot: int, id: dword, polls: seq<seq<Answer>>)
    ensures Waited(Begin(slot, id), id, FirstFor(Flatten(polls[..0]), id), 0)
  {
  }

  lemma WaitedNext(l: Lookup, id: dword, polls: seq<seq<Answer>>, i: nat)
    requires i < |polls| == MAX_TICKS && l.state == Pending && Waited(l, id, FirstFor(Flatten(polls[..i]), id), i)
    ensures Waited(Ticked(CompleteAll(l, polls[i])), id, FirstFor(Flatten(polls[..i + 1]), id), i + 1)
  {
    CompleteAllFirst(l, polls[i]);
    assert FirstFor(Flatten(polls[..i]), id) == None;
    assert polls[..i + 1][..i] == polls[..i];
    FirstForAppend(Flatten(polls[..i]), polls[i], id);
    hide CompleteAll, FirstFor, Flatten;
  }

  /** Answers that come in after the first one make no difference. */
  lemma {:induction false} FirstForPrefix(polls: seq<seq<Answer>>, i: nat, id: dword)
    requires i <= |polls| && FirstFor(Flatten(polls[..i]), id).Some?
    ensures FirstFor(Flatten(polls), id) == FirstFor(Flatten(polls[..i]), id)
    decreases |polls|
  {
    if i == |polls| {
      assert polls[..i] == polls;
    } else {
      var shorter := polls[..|polls| - 1];
      assert shorter[..i] == polls[..i];
      FirstForPrefix(shorter, i, id);
      FirstForAppend(Flatten(shorter), polls[|polls| - 1], id);
    }
  }

  lemma WaitedAll(l: Lookup, id: dword, polls: seq<seq<Answer>>, i: nat)
    requires i <= |polls| == MAX_TICKS && l.state != Pending && Waited(l, id, FirstFor(Flatten(polls[..i]), id), i)
    ensures Waited(l, id, FirstFor(Flatten(polls), id), MAX_TICKS)
  {
    if FirstFor(Flatten(polls[..i]), id).Some? {
      FirstForPrefix(polls, i, id);
    } else {
      assert polls[..i] == polls;
    }
  }
}
