/**
 * The environment of the directory code: TNFS servers, reached over a network that loses requests
 * and answers.  Every choice the firmware cannot control is nondeterministic here.
 *
 * One call of an exchange method is one request and the bounded wait for its answer; that an
 * accepted answer really is the answer to that request is the subject of module Channel.
 */
module Tnfs {
  import opened Words
  import opened Names
  import opened Wire

  const RX_BUF_SIZE := 768
  const TNFS_OK: byte := 0x00
  const TNFS_EOF: byte := 0x21
  const TNFS_ENOENT: byte := 2
  const TNFS_EBADF: byte := 9
  const TNFS_EACCES: byte := 13
  const TNFS_ENOTDIR: byte := 20
  const MAX_FOLDER_LENGTH := 128

  /** A handle number is only meaningful together with the runtime slot whose session it came from. */
  type Handle = (int, byte)

  /**
   * The server's side of an open directory.  `intact` says that every entry the server has handed
   * out on this handle also reached the receive buffer whole.
   */
  datatype Cursor = Cursor(dir: seq<Entry>, pos: nat, intact: bool)

  datatype Exchange = SendFailed | TimedOut | Answered

  predicate GoodCursor(c: Cursor) {
    c.pos <= |c.dir| && Sendable(c.dir)
  }

  /** An answer with these entries reaches the receive buffer whole. */
  ghost predicate FitsBuffer(es: seq<Entry>) {
    9 + |EncodeAll(es)| <= 768
  }

  /** Whatever the server puts into an answer of up to `max` entries, it fits. */
  ghost predicate AnswersFit(dir: seq<Entry>, max: nat) {
    forall p: nat, q: nat :: p <= q <= |dir| && q - p <= max ==> FitsBuffer(dir[p..q])
  }

  class Net {
    // What the servers hold.  Directories do not change while they are listed.
    const dirs: map<(int, seq<byte>), seq<Entry>>
    var open: map<Handle, Cursor>
    // The part of the shared receive buffer that the last answer filled.
    var resp: seq<byte>
    // Does the server hand out something on every READDIRX until there is nothing left, and then say so?
    const prompt: bool
    // How often entries the server handed out did not all reach the buffer.
    ghost var lost: nat
    // How often an exchange failed for a reason of its own: a request or answer lost, a slot gone, a
    // server that refuses although nothing is wrong with the request.
    ghost var faults: nat

    ghost predicate Valid()
      reads this
    {
      && |resp| <= RX_BUF_SIZE
      && (forall k :: k in open ==> GoodCursor(open[k]))
      && (forall k :: k in dirs ==> Sendable(dirs[k]))
    }

    constructor (dirs: map<(int, seq<byte>), seq<Entry>>, prompt: bool)
      requires forall k :: k in dirs ==> Sendable(dirs[k])
      ensures Valid() && this.dirs == dirs && this.prompt == prompt && open == map[]
    {
      this.dirs, this.prompt := dirs, prompt;
      open := map[];
      resp := [];
      lost, faults := 0, 0;
    }

    function Rc(): byte
      reads this
    {
      if |resp| > 4 then resp[4] else 0xFF
    }

    function Count(): byte
      reads this
    {
      if |resp| > 5 then resp[5] else 0
    }

    /** The entries that lie wholly in the buffer. */
    ghost function Received(): (es: seq<Entry>)
      reads this
      ensures Sendable(es)
    {
      if |resp| < HEADER_SIZE then [] else Frames(resp[HEADER_SIZE..], Count())
    }

    /** An answer comes in; what does not fit the buffer is dropped. */
    method Store(answer: seq<byte>)
      modifies this`resp
      ensures |resp| == if |answer| < RX_BUF_SIZE then |answer| else RX_BUF_SIZE
      ensures resp == answer[..|resp|]
    {
      resp := if |answer| < RX_BUF_SIZE then answer else answer[..RX_BUF_SIZE];
    }

    /** Is the slot still configured? */
    method SlotUp(slot: int) returns (up: bool)
      requires Valid()
      modifies this`faults
      ensures Valid() && faults >= old(faults) && (!up ==> faults > old(faults))
    {
      up := *;
      if !up { faults := faults + 1; }
    }

    method OpenDirX(slot: int, path: seq<byte>) returns (x: Exchange)
      requires Valid()
      modifies this`open, this`resp, this`faults
      ensures Valid() && faults >= old(faults)
      ensures forall k :: k in old(open) ==> k in open && open[k] == old(open)[k]
      ensures x.SendFailed? ==> open == old(open)
      ensures x.Answered? && Rc() != TNFS_OK ==> open == old(open)
      ensures x.Answered? && Rc() == TNFS_OK ==>
                && (slot, path) in dirs && (slot, Count()) !in old(open)
                && open == old(open)[(slot, Count()) := Cursor(dirs[(slot, path)], 0, true)]
      ensures faults == old(faults) ==> x.Answered? && Rc() == if (slot, path) in dirs then TNFS_OK else TNFS_ENOENT
    {
      var sent: bool, seen: bool, arrives: bool, willing: bool := *, *, *, *;
      var rc: byte, h: byte :| true;
      if !(sent && seen && arrives && willing) || (slot, h) in open { faults := faults + 1; }
      if !sent { return SendFailed; }
      if !seen { return TimedOut; }
      if !willing || (slot, h) in open {
        rc := if rc == TNFS_OK then TNFS_EACCES else rc;
      } else if (slot, path) !in dirs {
        rc := TNFS_ENOENT;
      } else {
        rc := TNFS_OK;
        open := open[(slot, h) := Cursor(dirs[(slot, path)], 0, true)];
      }
      if !arrives { return TimedOut; }
      Store([0, 0, 0, 0, rc, h]);
      return Answered;
    }

    /**
     * READDIRX: the server hands out the next `sent` entries, at most `max`, in any grouping it
     * likes, and may flag EOF once there are no more.
     */
    method ReadDirX(slot: int, h: byte, max: byte) returns (x: Exchange, ghost sent: seq<Entry>)
      requires Valid()
      modifies this`open, this`resp, this`lost, this`faults
      ensures Valid() && lost >= old(lost) && faults >= old(faults)
      ensures (slot, h) !in old(open) ==> sent == [] && open == old(open)
      ensures (slot, h) in old(open) ==> AdvancedBy(old(open), open, (slot, h), sent)
      ensures (slot, h) in old(open) && old(open)[(slot, h)].intact && !open[(slot, h)].intact ==> lost > old(lost)
      ensures |sent| <= max
      ensures faults == old(faults) ==> (lost == old(lost) <==> FitsBuffer(sent))
      ensures x.SendFailed? ==> open == old(open)
      ensures (slot, h) in open && open[(slot, h)].intact && !x.Answered? ==> sent == []
      ensures x.Answered? && Rc() in {TNFS_OK, TNFS_EOF} ==>
                && (slot, h) in open
                && Received() <= sent
                && (open[(slot, h)].intact || lost == old(lost) ==> Received() == sent)
                && (Rc() == TNFS_EOF ==> open[(slot, h)].pos == |open[(slot, h)].dir|)
                && (prompt && max > 0 && sent == [] ==> Rc() == TNFS_EOF)
      ensures x.Answered? && Rc() !in {TNFS_OK, TNFS_EOF} ==> open == old(open)
      ensures faults == old(faults) ==> x.Answered? && ((slot, h) in old(open) ==> Rc() in {TNFS_OK, TNFS_EOF})
    {
      sent := [];
      NothingFits();
      hide Sendable, Frames, FitsBuffer;
      var goes: bool, seen: bool, arrives: bool, willing: bool := *, *, *, *;
      if !(goes && seen && arrives && willing) { faults := faults + 1; }
      if !goes { return SendFailed, []; }
      if !seen { return TimedOut, []; }
      if willing && (slot, h) in open {
        sent := HandOut((slot, h), max, arrives);
        return if arrives then Answered else TimedOut, sent;
      }
      if !arrives { return TimedOut, []; }
      var rc: byte :| true;
      StoreStatus(if rc in {TNFS_OK, TNFS_EOF} then TNFS_EBADF else rc);
      return Answered, [];
    }

    /** The server hands out entries on an open handle; the answer may get lost on its way. */
    method HandOut(k: Handle, max: byte, arrives: bool) returns (ghost sent: seq<Entry>)
      requires Valid() && k in open
      modifies this`open, this`resp, this`lost
      ensures Valid() && lost >= old(lost) && |sent| <= max && AdvancedBy(old(open), open, k, sent)
      ensures old(open)[k].intact && !open[k].intact ==> lost > old(lost)
      ensures arrives ==> (lost == old(lost) <==> FitsBuffer(sent))
      ensures !arrives && open[k].intact ==> sent == []
      ensures arrives ==>
                && Rc() in {TNFS_OK, TNFS_EOF} && Received() <= sent
                && (open[k].intact || lost == old(lost) ==> Received() == sent)
                && (Rc() == TNFS_EOF ==> open[k].pos == |open[k].dir|)
                && (prompt && max > 0 && sent == [] ==> Rc() == TNFS_EOF)
    {
      var eof: bool, short: bool := *, *;
      var c := open[k];
      assert GoodCursor(c);
      var n := ChooseCount(c, max);
      var es := c.dir[c.pos..c.pos + n];
      sent := es;
      var whole := arrives && HEADER_SIZE + |EncodeAll(es)| <= RX_BUF_SIZE;
      open := open[k := Cursor(c.dir, c.pos + n, c.intact && (whole || n == 0))];
      if !whole && n > 0 { lost := lost + 1; }
      if !arrives { return; }
      var rc := if (eof || (prompt && n == 0)) && c.pos + n == |c.dir| then TNFS_EOF else TNFS_OK;
      if short && n == 0 {
        StoreStatus(rc);
      } else {
        StoreEntries(rc, es);
      }
    }

    /** How many entries the server puts into one answer. */
    method ChooseCount(c: Cursor, max: byte) returns (k: nat)
      requires c.pos <= |c.dir|
      ensures k <= max && c.pos + k <= |c.dir|
      ensures prompt && max > 0 && k == 0 ==> c.pos == |c.dir|
    {
      assert c.pos + 0 <= |c.dir|;
      k :| k <= max && c.pos + k <= |c.dir|;
      if prompt && max > 0 && k == 0 && c.pos < |c.dir| { k := 1; }
    }

    /** An answer that is only a status. */
    method StoreStatus(rc: byte)
      requires Valid()
      modifies this`resp
      ensures Valid() && Rc() == rc && Received() == []
    {
      Store([0, 0, 0, 0, rc]);
    }

    method StoreEntries(rc: byte, es: seq<Entry>)
      requires Valid() && Sendable(es) && |es| < 0x100
      modifies this`resp
      ensures Valid() && Rc() == rc
      ensures Received() <= es
      ensures HEADER_SIZE + |EncodeAll(es)| <= RX_BUF_SIZE ==> Received() == es
    {
      hide EncodeAll, Frames;
      var head := [0, 0, 0, 0, rc, |es|, 0, 0, 0];
      Store(head + EncodeAll(es));
      assert resp[4] == head[4] && resp[5] == head[5];
      FramesOfAnswer(head, es, |resp|);
    }

    method CloseDirX(slot: int, h: byte) returns (x: Exchange)
      requires Valid()
      modifies this`open, this`resp, this`faults
      ensures Valid() && faults >= old(faults)
      ensures open == old(open) || open == old(open) - {(slot, h)}
      ensures x.SendFailed? || (x.Answered? && Rc() != TNFS_OK) ==> open == old(open)
      ensures x.Answered? && Rc() == TNFS_OK ==> (slot, h) !in open
      ensures faults == old(faults) && (slot, h) in old(open) ==> x.Answered? && Rc() == TNFS_OK
    {
      var goes: bool, seen: bool, arrives: bool, willing: bool := *, *, *, *;
      var rc: byte :| true;
      if !(goes && seen && arrives && willing) { faults := faults + 1; }
      if !goes { return SendFailed; }
      if !seen { return TimedOut; }
      if (slot, h) in open && willing {
        rc := TNFS_OK;
        open := open - {(slot, h)};
      } else {
        rc := if rc == TNFS_OK then TNFS_EBADF else rc;
      }
      if !arrives { return TimedOut; }
      StoreStatus(rc);
      return Answered;
    }
  }

  lemma SentFits(was: map<Handle, Cursor>, now: map<Handle, Cursor>, k: Handle, sent: seq<Entry>, max: nat)
    requires k in was && AdvancedBy(was, now, k, sent) && |sent| <= max && AnswersFit(was[k].dir, max)
    ensures FitsBuffer(sent)
  {
    hide FitsBuffer;
    assert sent == was[k].dir[was[k].pos..now[k].pos];
  }

  lemma NothingFits()
    ensures FitsBuffer([])
  {
  }

  /** How many bytes entries take whose names all have `n` characters. */
  lemma {:induction false} EncodeAllLength(es: seq<Entry>, n: nat)
    requires forall i :: 0 <= i < |es| ==> |es[i].name| == n
    ensures |EncodeAll(es)| == |es| * (FIXED_SIZE + 1 + n)
  {
    if es != [] {
      EncodeAllLength(es[1..], n);
      hide EncodeAll;
      OneMore(|es[1..]|, FIXED_SIZE + 1 + n);
    }
  }

  lemma {:induction false} EncodeAllBound(es: seq<Entry>, n: nat)
    requires forall i :: 0 <= i < |es| ==> |es[i].name| <= n
    ensures |EncodeAll(es)| <= |es| * (FIXED_SIZE + 1 + n)
  {
    if es != [] {
      EncodeAllBound(es[1..], n);
      OneMore(|es[1..]|, FIXED_SIZE + 1 + n);
    }
  }

  lemma OneMore(a: nat, k: nat)
    ensures (a + 1) * k == a * k + k
  {
  }

  lemma NoMore(a: nat, b: nat, k: nat)
    requires a <= b
    ensures a * k <= b * k
  {
  }

  /** Answers of up to `max` entries always fit if no name is longer than `n`. */
  lemma ShortNamesFit(dir: seq<Entry>, max: nat, n: nat)
    requires max * (FIXED_SIZE + 1 + n) <= RX_BUF_SIZE - HEADER_SIZE
    requires forall i :: 0 <= i < |dir| ==> |dir[i].name| <= n
    ensures AnswersFit(dir, max)
  {
    forall p: nat, q: nat | p <= q <= |dir| && q - p <= max ensures FitsBuffer(dir[p..q]) {
      EncodeAllBound(dir[p..q], n);
      hide EncodeAll;
      NoMore(q - p, max, FIXED_SIZE + 1 + n);
    }
  }

  /**
   * A loss without any fault: fifteen names of 37 characters do not fit.  A server that sends all
   * fifteen has moved past the last one, and only fourteen are read.
   */
  lemma FifteenNamesOverflow(es: seq<Entry>)
    requires |es| == 15 && Sendable(es) && forall i :: 0 <= i < |es| ==> |es[i].name| == 37
    ensures !FitsBuffer(es) && !AnswersFit(es, 15)
    ensures RX_BUF_SIZE - HEADER_SIZE <= |EncodeAll(es)| && Frames(EncodeAll(es)[..RX_BUF_SIZE - HEADER_SIZE], 15) == es[..14]
  {
    hide EncodeAll, Frames, Fits, Sendable;
    var room := RX_BUF_SIZE - HEADER_SIZE;
    var k := Fits(es, room);
    EncodeAllLength(es, 37);
    FramesOfCut(es, room);
    FitsIsMaximal(es, room);
    assert es[0..15] == es;
    EncodeAllLength(es[..k], 37);
    if k < 14 { EncodeAllLength(es[..k + 1], 37); }
  }

  /** The server's state after handing out `sent` on one handle. */
  ghost predicate AdvancedBy(was: map<Handle, Cursor>, now: map<Handle, Cursor>, k: Handle, sent: seq<Entry>)
    requires k in was
  {
    && k in now
    && now == was[k := now[k]]
    && now[k].dir == was[k].dir
    && now[k].pos == was[k].pos + |sent| <= |was[k].dir|
    && sent == was[k].dir[was[k].pos..now[k].pos]
    && (now[k].intact ==> was[k].intact)
  }
}
