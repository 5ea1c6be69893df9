/**
 * The table of open Fsfirst/Fsnext searches as a value, and the bounded recency list it stands for
 * (sidetnfs_probe.c, 867-923 and 4829-4954).
 */
module DtaTable {
  import opened Words

  const DTA_SLOTS := 8

  datatype Search = Search(active: bool, ndta: dword, path: seq<byte>, pattern: seq<byte>, attribs: byte,
                           dirHandle: byte, eof: bool, handleValid: bool, runtimeSlot: int, lastTouched: dword)

  const FREE := Search(false, 0, [], [], 0, 0, false, false, 0, 0)

  type Table = seq<Search>

  /** The slot that holds the search registered under `ndta`, or the table's size. */
  function Find(t: Table, ndta: dword): (i: nat)
    ensures i <= |t|
    ensures i < |t| ==> t[i].active && t[i].ndta == ndta
    ensures i == |t| ==> forall k :: 0 <= k < |t| ==> !(t[k].active && t[k].ndta == ndta)
    ensures forall k :: 0 <= k < i ==> !(t[k].active && t[k].ndta == ndta)
  {
    if t == [] then 0
    else if t[0].active && t[0].ndta == ndta then 0
    else
      var i := 1 + Find(t[1..], ndta);
      assert forall k :: 1 <= k < |t| ==> t[k] == t[1..][k - 1];
      i
  }

  predicate Registered(t: Table, ndta: dword) {
    Find(t, ndta) < |t|
  }

  function Tick(t: Table, ndta: dword): dword
    requires Registered(t, ndta)
  {
    t[Find(t, ndta)].lastTouched
  }

  function CountActive(t: Table): nat {
    if t == [] then 0 else (if t[0].active then 1 else 0) + CountActive(t[1..])
  }

  /** No two open searches share an ndta. */
  ghost predicate Distinct(t: Table) {
    forall i, j :: 0 <= i < j < |t| && t[i].active && t[j].active ==> t[i].ndta != t[j].ndta
  }

  // -- The recency list: ndtas, least recently touched first -----------------------------------

  function Without(l: seq<dword>, n: dword): seq<dword> {
    if l == [] then []
    else if l[0] == n then Without(l[1..], n)
    else [l[0]] + Without(l[1..], n)
  }

  /** A new search goes to the back; the front one makes room when the list is full. */
  function LruInsert(l: seq<dword>, n: dword): seq<dword> {
    var rest := Without(l, n);
    (if |rest| < 8 then rest else rest[1..]) + [n]
  }

  /** Table and list agree: same ndtas, and the list is in order of the ticks. */
  ghost predicate Represents(t: Table, l: seq<dword>, touches: nat) {
    && (forall n: dword :: n in l <==> Registered(t, n))
    && (forall a, b :: 0 <= a < b < |l| ==> Tick(t, l[a]) < Tick(t, l[b]))
    && (forall a :: 0 <= a < |l| ==> Tick(t, l[a]) <= touches)
    && |l| == CountActive(t)
  }

  lemma {:induction false} WithoutMembers(l: seq<dword>, n: dword)
    ensures forall m :: m in Without(l, n) <==> m in l && m != n
  {
    if l != [] {
      WithoutMembers(l[1..], n);
      assert forall m :: m in l <==> m == l[0] || m in l[1..];
    }
  }

  lemma {:induction false} WithoutAbsent(l: seq<dword>, n: dword)
    requires n !in l
    ensures Without(l, n) == l
  {
    if l != [] { WithoutAbsent(l[1..], n); }
  }

  lemma {:induction false} WithoutPresent(l: seq<dword>, n: dword)
    requires n in l && forall a, b :: 0 <= a < b < |l| ==> l[a] != l[b]
    ensures |Without(l, n)| == |l| - 1
  {
    if l[0] == n {
      WithoutAbsent(l[1..], n);
    } else {
      WithoutPresent(l[1..], n);
    }
  }

  ghost predicate InTickOrder(t: Table, l: seq<dword>) {
    && (forall a :: 0 <= a < |l| ==> Registered(t, l[a]))
    && (forall a, b :: 0 <= a < b < |l| ==> Tick(t, l[a]) < Tick(t, l[b]))
  }

  /** A sublist keeps the order of the ticks. */
  lemma {:induction false} WithoutKeepsOrder(t: Table, l: seq<dword>, n: dword)
    requires InTickOrder(t, l)
    ensures InTickOrder(t, Without(l, n))
  {
    hide Tick, Registered;
    if l != [] {
      WithoutKeepsOrder(t, l[1..], n);
      WithoutMembers(l[1..], n);
      var w := Without(l[1..], n);
      forall b | 0 <= b < |w| ensures Tick(t, l[0]) < Tick(t, w[b]) {
        assert w[b] in w && w[b] in l[1..];
      }
    }
  }

  lemma {:induction false} CountUpdate(t: Table, i: nat, s: Search)
    requires i < |t|
    ensures CountActive(t[i := s]) ==
            CountActive(t) - (if t[i].active then 1 else 0) + (if s.active then 1 else 0)
  {
    if i == 0 {
      assert t[i := s][1..] == t[1..];
    } else {
      assert t[i := s][1..] == t[1..][i - 1 := s];
      CountUpdate(t[1..], i - 1, s);
    }
  }

  lemma {:induction false} CountBound(t: Table)
    ensures CountActive(t) <= |t|
    ensures CountActive(t) == |t| <==> forall i :: 0 <= i < |t| ==> t[i].active
  {
    if t != [] {
      CountBound(t[1..]);
      assert forall i :: 1 <= i < |t| ==> t[i] == t[1..][i - 1];
    }
  }

  lemma FindIs(t: Table, i: nat)
    requires i < |t| && t[i].active && Distinct(t)
    ensures Find(t, t[i].ndta) == i
  {
  }

  /** Overwriting one slot changes the lookup of the old and the new ndta only. */
  lemma FindUpdate(t: Table, i: nat, s: Search, n: dword)
    requires i < |t| && Distinct(t) && Distinct(t[i := s])
    requires !(t[i].active && t[i].ndta == n) && !(s.active && s.ndta == n)
    ensures Registered(t[i := s], n) <==> Registered(t, n)
    ensures Registered(t, n) ==> Find(t[i := s], n) == Find(t, n) != i
  {
    var t' := t[i := s];
    if Registered(t, n) {
      assert t'[Find(t, n)] == t[Find(t, n)];
      FindIs(t', Find(t, n));
    }
    if Registered(t', n) {
      assert t[Find(t', n)] == t'[Find(t', n)];
    }
  }

  // -- How the list follows the table ----------------------------------------------------------

  lemma DistinctList(t: Table, l: seq<dword>, touches: nat)
    requires Represents(t, l, touches)
    ensures forall a, b :: 0 <= a < b < |l| ==> l[a] != l[b]
  {
  }

  /** A search leaves the table. */
  lemma RepresentsDrop(t: Table, l: seq<dword>, touches: nat, i: nat, s: Search)
    requires Distinct(t) && Represents(t, l, touches)
    requires i < |t| && t[i].active && !s.active
    ensures Distinct(t[i := s]) && Represents(t[i := s], Without(l, t[i].ndta), touches)
  {
    var t', n := t[i := s], t[i].ndta;
    var w := Without(l, n);
    FindIs(t, i);
    WithoutMembers(l, n);
    WithoutPresent(l, n);
    CountUpdate(t, i, s);
    assert !Registered(t', n) by {
      forall k | 0 <= k < |t'| ensures !(t'[k].active && t'[k].ndta == n) {
        assert k != i ==> t'[k] == t[k];
      }
    }
    forall m: dword | m != n ensures Registered(t', m) <==> Registered(t, m)
                             ensures Registered(t, m) ==> Find(t', m) == Find(t, m) != i {
      FindUpdate(t, i, s, m);
    }
    assert InTickOrder(t, l) by {
      forall a | 0 <= a < |l| ensures Registered(t, l[a]) { assert l[a] in l; }
    }
    WithoutKeepsOrder(t, l, n);
    forall a | 0 <= a < |w| ensures Registered(t', w[a]) && Tick(t', w[a]) == Tick(t, w[a]) <= touches {
      assert w[a] in w && w[a] in l;
    }
  }

  /** A search in a slot that was free is found there, and the others are found where they were. */
  lemma AddedFinds(t: Table, i: nat, s: Search)
    requires Distinct(t) && i < |t| && !t[i].active && s.active && !Registered(t, s.ndta)
    ensures Distinct(t[i := s]) && Find(t[i := s], s.ndta) == i
    ensures forall m: dword :: m != s.ndta ==> (Registered(t[i := s], m) <==> Registered(t, m))
    ensures forall m: dword :: Registered(t, m) ==> Registered(t[i := s], m) && Tick(t[i := s], m) == Tick(t, m)
  {
    var t' := t[i := s];
    forall k | 0 <= k < |t| && t[k].active ensures t[k].ndta != s.ndta {}
    FindIs(t', i);
    forall m: dword | m != s.ndta ensures Registered(t', m) <==> Registered(t, m)
                                  ensures Registered(t, m) ==> Find(t', m) == Find(t, m) != i {
      FindUpdate(t, i, s, m);
    }
  }

  /** A search enters the table, as the most recently touched one. */
  lemma RepresentsAdd(t: Table, l: seq<dword>, touches: nat, i: nat, s: Search)
    requires Distinct(t) && Represents(t, l, touches)
    requires i < |t| && !t[i].active && s.active && s.lastTouched == touches + 1
    requires !Registered(t, s.ndta)
    ensures Distinct(t[i := s]) && Represents(t[i := s], l + [s.ndta], touches + 1)
  {
    var t', l' := t[i := s], l + [s.ndta];
    CountUpdate(t, i, s);
    AddedFinds(t, i, s);
    assert Registered(t', s.ndta) && Tick(t', s.ndta) == touches + 1;
    hide Find, Registered, Tick, Distinct, CountActive;
    forall a | 0 <= a < |l| ensures Registered(t', l[a]) && Tick(t', l[a]) == Tick(t, l[a]) <= touches && l'[a] == l[a] {
      assert l[a] in l;
    }
    forall a, b | 0 <= a < b < |l'| ensures Tick(t', l'[a]) < Tick(t', l'[b]) {
      if b < |l| { assert Tick(t, l[a]) < Tick(t, l[b]); }
    }
    forall m: dword ensures m in l' <==> Registered(t', m) {
      assert m in l' <==> m in l || m == s.ndta;
    }
  }

  /** When every slot is taken, the slot with the lowest tick is the list's front. */
  lemma VictimIsFront(t: Table, l: seq<dword>, touches: nat, v: nat)
    requires Distinct(t) && Represents(t, l, touches) && v < |t| && t[v].active
    requires forall k :: 0 <= k < |t| ==> t[k].active && t[v].lastTouched <= t[k].lastTouched
    ensures |l| == |t| && l[0] == t[v].ndta
    ensures Without(l, t[v].ndta) == l[1..]
  {
    CountBound(t);
    FindIs(t, v);
    assert t[v].ndta in l;
    var a :| 0 <= a < |l| && l[a] == t[v].ndta;
    assert l[0] in l;
    assert Tick(t, l[0]) == t[Find(t, l[0])].lastTouched;
    assert a == 0;
    WithoutAbsent(l[1..], l[0]);
  }

  /** A search is used again: it moves to the back of the list. */
  lemma RepresentsTouch(t: Table, l: seq<dword>, touches: nat, i: nat, s: Search)
    requires Distinct(t) && Represents(t, l, touches)
    requires i < |t| && t[i].active && s.active && s.ndta == t[i].ndta && s.lastTouched == touches + 1
    ensures Distinct(t[i := s]) && Represents(t[i := s], Without(l, s.ndta) + [s.ndta], touches + 1)
  {
    hide Represents, Registered;
    var off := t[i].(active := false);
    RepresentsDrop(t, l, touches, i, off);
    NotRegistered(t, i, off);
    RepresentsAdd(t[i := off], Without(l, s.ndta), touches, i, s);
    assert t[i := off][i := s] == t[i := s];
  }

  lemma NotRegistered(t: Table, i: nat, off: Search)
    requires Distinct(t) && i < |t| && t[i].active && !off.active
    ensures !Registered(t[i := off], t[i].ndta)
  {
    var t', n := t[i := off], t[i].ndta;
    forall k | 0 <= k < |t'| ensures !(t'[k].active && t'[k].ndta == n) {
      assert k != i ==> t'[k] == t[k];
    }
  }
}
