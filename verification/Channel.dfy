/**
 * The request/response channel under every directory and file operation (sidetnfs_probe.c,
 * 3672-3751, 3787-3832, 5006-5058): one request outstanding at a time, one byte of sequence number
 * shared by all request types, and a bounded wait that polls the network.
 *
 * The network may delay, reorder, duplicate and drop.  A wait is given the packets that arrive
 * during each of its polls; what holds for every such script holds for every network.
 */
module Channel {
  import opened Words
  import Tnfs

  const MAX_POLLS := 200
  const FIRST_SEQ: nat := 2
  const SEQ_NUMBERS: nat := 256
  const NO_BYTE: byte := 0xFF

  /** `body` is what follows the command: handle, path, counts.  Answers do not repeat it. */
  datatype Request = Request(addr: dword, port: word, sid: word, cmd: byte, body: seq<byte>)

  /** The same command on the same session; what it was about may differ. */
  predicate SameKind(a: Request, b: Request) {
    a.addr == b.addr && a.port == b.port && a.sid == b.sid && a.cmd == b.cmd
  }

  datatype Packet = Packet(addr: dword, port: word, bytes: seq<byte>)

  /** A packet as it arrives, with the number of the request it answers. */
  datatype Delivery = Delivery(packet: Packet, ghost origin: nat)

  /** The sequence byte of the `k`-th request. */
  function SeqByte(k: nat): byte {
    (FIRST_SEQ + k) % SEQ_NUMBERS
  }

  function Sid(bytes: seq<byte>): word
    requires |bytes| >= 2
  {
    var (lo: int, hi: int) := (bytes[0], bytes[1]);
    lo + 256 * hi
  }

  function Stored(bytes: seq<byte>): seq<byte> {
    if |bytes| < Tnfs.RX_BUF_SIZE then bytes else bytes[..Tnfs.RX_BUF_SIZE]
  }

  /** From the server and session the outstanding request went to: the session is sent low byte first. */
  predicate FromPeer(p: Packet, r: Request) {
    p.addr == r.addr && p.port == r.port && |p.bytes| >= 2 && p.bytes[0] == r.sid % 256 && p.bytes[1] == r.sid / 256
  }

  lemma SidIsRead(bytes: seq<byte>, sid: word)
    requires |bytes| >= 2
    ensures Sid(bytes) == sid <==> bytes[0] == sid % 256 && bytes[1] == sid / 256
  {
  }

  /** What the wait loop looks for. */
  predicate Matches(p: Packet, r: Request, k: nat) {
    |p.bytes| >= 4 && p.bytes[2] == SeqByte(k) && p.bytes[3] == r.cmd
  }

  /** These bytes start with the session, the number of the `k`-th request and its command. */
  predicate Echoes(bytes: seq<byte>, r: Request, k: nat) {
    |bytes| >= 4 && bytes[0] == r.sid % 256 && bytes[1] == r.sid / 256 && bytes[2] == (2 + k) % 256 && bytes[3] == r.cmd
  }

  /** A poll answers request `k` if one packet does and none after it is from the same address, port and session. */
  ghost predicate PollAnswers(batch: seq<Delivery>, r: Request, k: nat) {
    exists j ::
      && 0 <= j < |batch| && batch[j].packet.addr == r.addr && batch[j].packet.port == r.port && Echoes(batch[j].packet.bytes, r, k)
      && forall l :: j < l < |batch| ==>
           var p := batch[l].packet;
           p.addr != r.addr || p.port != r.port || |p.bytes| < 2 || p.bytes[0] != r.sid % 256 || p.bytes[1] != r.sid / 256
  }

  lemma HitByByte(batch: seq<Delivery>, r: Request, k: nat)
    ensures Hit(batch, r, k) <==> PollAnswers(batch, r, k)
    ensures Hit(batch, r, k) ==> Echoes(batch[LastFromPeer(batch, r)].packet.bytes, r, k)
  {
    var j := LastFromPeer(batch, r);
    if Hit(batch, r, k) { assert Echoes(batch[j].packet.bytes, r, k); }
  }

  /** Some poll does. */
  ghost predicate Answered(polls: seq<seq<Delivery>>, r: Request, k: nat) {
    exists i :: 0 <= i < |polls| && PollAnswers(polls[i], r, k)
  }

  lemma AnsweredAt(polls: seq<seq<Delivery>>, i: nat, r: Request, k: nat)
    requires i < |polls| && Hit(polls[i], r, k)
    ensures Answered(polls, r, k)
  {
    HitByByte(polls[i], r, k);
    hide Hit, PollAnswers;
  }

  lemma NeverAnswered(polls: seq<seq<Delivery>>, r: Request, k: nat)
    requires forall i :: 0 <= i < |polls| ==> !Hit(polls[i], r, k)
    ensures !Answered(polls, r, k)
  {
    hide Hit, PollAnswers;
    forall i | 0 <= i < |polls| ensures Hit(polls[i], r, k) <==> PollAnswers(polls[i], r, k) {
      HitByByte(polls[i], r, k);
    }
  }

  /**
   * A server only speaks when spoken to, and echoes session, sequence number and command.  Anyone
   * else may send anything, and any packet may be cut short.
   */
  ghost predicate Honest(d: Delivery, log: seq<Request>) {
    || |d.packet.bytes| < 4
    || (forall r :: r in log ==> !FromPeer(d.packet, r))
    || (d.origin < |log| && FromPeer(d.packet, log[d.origin]) && Matches(d.packet, log[d.origin], d.origin))
  }

  ghost predicate AllHonest(polls: seq<seq<Delivery>>, log: seq<Request>) {
    forall i, j :: 0 <= i < |polls| && 0 <= j < |polls[i]| ==> Honest(polls[i][j], log)
  }

  /** Fewer than 256 requests were made after the one this packet answers. */
  ghost predicate Young(d: Delivery, log: seq<Request>) {
    d.origin + 256 >= |log|
  }

  /** Of the packets of one poll that come from the peer, the last one is looked at. */
  function LastFromPeer(batch: seq<Delivery>, r: Request): (j: int)
    ensures -1 <= j < |batch|
    ensures j >= 0 ==> FromPeer(batch[j].packet, r)
    ensures forall i :: j < i < |batch| ==> !FromPeer(batch[i].packet, r)
  {
    if batch == [] then -1
    else if FromPeer(batch[|batch| - 1].packet, r) then |batch| - 1
    else LastFromPeer(batch[..|batch| - 1], r)
  }

  /** Does this poll end the wait for request `k`? */
  predicate Hit(batch: seq<Delivery>, r: Request, k: nat) {
    var j := LastFromPeer(batch, r);
    j >= 0 && Matches(batch[j].packet, r, k)
  }

  /** An honest packet passes the test exactly if its request was of the same kind, a multiple of 256 requests ago. */
  lemma PassesIffSameSeq(d: Delivery, log: seq<Request>)
    requires log != [] && Honest(d, log) && FromPeer(d.packet, log[|log| - 1]) && |d.packet.bytes| >= 4
    ensures d.origin < |log|
    ensures var last := |log| - 1;
            Matches(d.packet, log[last], last) <==> SameKind(log[d.origin], log[last]) && (last - d.origin) % 256 == 0
  {
    var last := |log| - 1;
    assert log[last] in log;
    assert FromPeer(d.packet, log[d.origin]);
    SameSeq(d.origin, last);
  }

  lemma SameSeq(k: nat, last: nat)
    requires k <= last
    ensures SeqByte(k) == SeqByte(last) <==> (last - k) % 256 == 0
  {
    var q, q' := (FIRST_SEQ + k) / 256, (FIRST_SEQ + last) / 256;
    assert last - k == 256 * (q' - q) + (SeqByte(last) - SeqByte(k));
  }

  class FsListing {
    var nextSeq: byte
    var waiting: bool
    var ready: bool
    var resp: seq<byte>
    var cmd: byte
    var seqNo: byte
    var expected: Request
    // Every request that has used up a sequence number.
    ghost var log: seq<Request>

    ghost predicate Valid()
      reads this
    {
      nextSeq == SeqByte(|log|) && !waiting && |resp| <= Tnfs.RX_BUF_SIZE
    }

    constructor ()
      ensures Valid() && log == []
    {
      nextSeq, waiting, ready, resp, cmd, seqNo, log := FIRST_SEQ, false, false, [], 0, 0, [];
      expected := Request(0, 0, 0, 0, []);
    }

    /**
     * One of the `fslisting_send_*` functions; `buffer` says whether a packet buffer can be had.  The
     * number is used up even if not.
     */
    method Send(r: Request, resolved: bool, buffer: bool) returns (sent: bool, s: byte)
      requires Valid()
      modifies this`nextSeq, this`ready, this`log
      ensures Valid() && (sent <==> resolved && buffer)
      ensures sent ==> !ready && s == SeqByte(|old(log)|)
      ensures log == if resolved then old(log) + [r] else old(log)
    {
      s := 0;
      if !resolved { return false, s; }
      s := nextSeq;
      nextSeq := (nextSeq + 1) % SEQ_NUMBERS;
      log := log + [r];
      ready := false;
      return buffer, s;
    }

    /** `tnfs_fslisting_recv_callback`. */
    method Receive(p: Packet)
      modifies this`ready, this`resp, this`cmd, this`seqNo
      ensures !waiting || !FromPeer(p, expected) ==>
                ready == old(ready) && resp == old(resp) && cmd == old(cmd) && seqNo == old(seqNo)
      ensures waiting && FromPeer(p, expected) ==> ready && Holds(p)
      ensures if waiting && p.addr == expected.addr && p.port == expected.port && |p.bytes| >= 2
                 && p.bytes[0] == expected.sid % 256 && p.bytes[1] == expected.sid / 256
              then ready && resp <= p.bytes && (|p.bytes| >= 4 ==> seqNo == p.bytes[2] && cmd == p.bytes[3])
              else ready == old(ready) && resp == old(resp) && cmd == old(cmd) && seqNo == old(seqNo)
    {
      if |p.bytes| >= 2 { SidIsRead(p.bytes, expected.sid); }
      hide Sid;
      if !waiting { return; }
      var addrOk, portOk := p.addr == expected.addr, p.port == expected.port;
      var sidRead := |p.bytes| >= 2;
      var respSid: word := if sidRead then Sid(p.bytes) else 0;
      var sidOk := sidRead && respSid == expected.sid;
      if !addrOk || !portOk || !sidOk { return; }
      var n := if |p.bytes| < Tnfs.RX_BUF_SIZE then |p.bytes| else Tnfs.RX_BUF_SIZE;
      resp := p.bytes[..n];
      cmd := if n >= 4 then resp[3] else NO_BYTE;
      seqNo := if n >= 3 then resp[2] else NO_BYTE;
      ready := true;
    }

    /** The buffer and the two fields beside it describe `p`. */
    ghost predicate Holds(p: Packet)
      reads this
    {
      && resp == Stored(p.bytes)
      && cmd == (if |p.bytes| >= 4 then p.bytes[3] else NO_BYTE)
      && seqNo == (if |p.bytes| >= 3 then p.bytes[2] else NO_BYTE)
    }

    /** What the wait loop compares decides the match. */
    lemma JudgesStored(p: Packet, r: Request, s: byte, k: nat)
      requires Holds(p) && r.cmd != NO_BYTE && s == SeqByte(k)
      ensures resp == Stored(p.bytes) && (cmd == r.cmd && seqNo == s <==> Matches(p, r, k))
    {
    }

    /** `cyw43_arch_poll`: the packets that have arrived are handed to the callback, in this order. */
    method Poll(batch: seq<Delivery>)
      modifies this`ready, this`resp, this`cmd, this`seqNo
      ensures !waiting ==> ready == old(ready) && resp == old(resp) && cmd == old(cmd) && seqNo == old(seqNo)
      ensures waiting ==> var j := LastFromPeer(batch, expected);
                          && (j < 0 ==> ready == old(ready) && resp == old(resp) && cmd == old(cmd) && seqNo == old(seqNo))
                          && (j >= 0 ==> ready && Holds(batch[j].packet))
    {
      hide Holds, FromPeer;
      assert batch[..0] == [];
      for i := 0 to |batch|
        invariant !waiting ==> ready == old(ready) && resp == old(resp) && cmd == old(cmd) && seqNo == old(seqNo)
        invariant waiting ==> var j := LastFromPeer(batch[..i], expected);
                              && (j < 0 ==> ready == old(ready) && resp == old(resp) && cmd == old(cmd) && seqNo == old(seqNo))
                              && (j >= 0 ==> ready && Holds(batch[j].packet))
      {
        assert batch[..i + 1][..i] == batch[..i];
        Receive(batch[i].packet);
      }
      assert batch[..|batch|] == batch;
    }

    /** Between waits nothing that arrives is kept, so an accepted answer stays as it is. */
    method Idle(arrivals: seq<Delivery>)
      requires Valid()
      modifies this`ready, this`resp, this`cmd, this`seqNo
      ensures Valid() && ready == old(ready) && resp == old(resp) && cmd == old(cmd) && seqNo == old(seqNo)
    {
      Poll(arrivals);
    }

    /**
     * `fslisting_wait_for`, for the request just sent.  It succeeds at the first poll whose last
     * packet from the peer matches; `at` says which poll that was.  Without an address to expect the
     * answer from (`known`) it fails at once.
     */
    method Wait(r: Request, s: byte, known: bool, polls: seq<seq<Delivery>>) returns (ok: bool, ghost at: nat)
      requires Valid() && !ready && |polls| == 200 && r.cmd != NO_BYTE
      requires log != [] && s == SeqByte(|log| - 1)
      modifies this`waiting, this`ready, this`resp, this`cmd, this`seqNo, this`expected
      ensures Valid() && ready == ok
      ensures ok ==>
                && known && at < MAX_POLLS && Hit(polls[at], r, |log| - 1)
                && (forall i :: 0 <= i < at ==> !Hit(polls[i], r, |log| - 1))
                && resp == Stored(polls[at][LastFromPeer(polls[at], r)].packet.bytes)
      ensures !ok ==> !known || forall i :: 0 <= i < MAX_POLLS ==> !Hit(polls[i], r, |log| - 1)
      ensures ok <==> known && Answered(polls, r, |log| - 1)
    {
      hide Answered, FromPeer, Matches, Holds, SeqByte;
      if !known { return false, MAX_POLLS; }
      expected := r;
      waiting := true;
      for i := 0 to MAX_POLLS
        invariant waiting && !ready && expected == r && |resp| <= Tnfs.RX_BUF_SIZE
        invariant forall k :: 0 <= k < i ==> !Hit(polls[k], r, |log| - 1)
      {
        Poll(polls[i]);
        if ready {
          JudgesStored(polls[i][LastFromPeer(polls[i], r)].packet, r, s, |log| - 1);
          assert Hit(polls[i], r, |log| - 1) <==> cmd == r.cmd && seqNo == s;
          if cmd == r.cmd && seqNo == s {
            waiting := false;
            AnsweredAt(polls, i, r, |log| - 1);
            return true, i;
          }
          ready := false;
        }
      }
      waiting := false;
      NeverAnswered(polls, r, |log| - 1);
      return false, MAX_POLLS;
    }

    /**
     * One request and its wait.  `from` is the number of the request whose answer was accepted:
     * it was the same command on the same session, a multiple of 256 requests ago, and if no packet
     * is that late, it is the request just sent.  It succeeds exactly if the request went out, the
     * server's address is still known, and some poll brought such an answer last.
     */
    method Exchange(r: Request, resolved: bool, buffer: bool, known: bool, polls: seq<seq<Delivery>>) returns (ok: bool, ghost from: nat)
      requires Valid() && |polls| == 200 && r.cmd != NO_BYTE
      requires AllHonest(polls, log + [r])
      modifies this
      ensures Valid() && log == if resolved then old(log) + [r] else old(log)
      ensures ok <==> resolved && buffer && known && Answered(polls, r, |old(log)|)
      ensures ok ==> Echoes(resp, r, |old(log)|)
      ensures ok ==>
                && ready && from < |log| && SameKind(log[from], r) && (|log| - 1 - from) % 256 == 0
                && AnsweredBy(polls, from, resp)
      ensures ok && (forall i, j :: 0 <= i < |polls| && 0 <= j < |polls[i]| ==> Young(polls[i][j], log)) ==> from == |log| - 1 && log[from] == r
    {
      hide FromPeer, Matches, Hit, Answered, AllHonest, Echoes, AnsweredBy, Stored;
      from := 0;
      var sent, s := Send(r, resolved, buffer);
      if !sent { return false, 0; }
      ghost var at;
      ok, at := Wait(r, s, known, polls);
      if ok { from := AcceptedAnswer(polls, at, log, r); }
    }
  }

  /** What is known of the answer that ends a wait for the last request of `log`. */
  lemma AcceptedAnswer(polls: seq<seq<Delivery>>, at: nat, log: seq<Request>, r: Request) returns (from: nat)
    requires log != [] && log[|log| - 1] == r && AllHonest(polls, log)
    requires at < |polls| && Hit(polls[at], r, |log| - 1)
    ensures var answer := Stored(polls[at][LastFromPeer(polls[at], r)].packet.bytes);
            && Echoes(answer, r, |log| - 1) && AnsweredBy(polls, from, answer)
            && from < |log| && SameKind(log[from], r) && (|log| - 1 - from) % 256 == 0
    ensures (forall i, j :: 0 <= i < |polls| && 0 <= j < |polls[i]| ==> Young(polls[i][j], log)) ==> from == |log| - 1
  {
    var j := LastFromPeer(polls[at], r);
    var d := polls[at][j];
    assert Honest(d, log);
    HitByByte(polls[at], r, |log| - 1);
    hide Honest, PollAnswers;
    PassesIffSameSeq(d, log);
    from := d.origin;
    hide FromPeer, Matches;
    assert polls[at][j].origin == from && Young(d, log) == (from + 256 >= |log|);
  }

  /** The answer in the buffer was delivered, and it answers request `from`. */
  ghost predicate AnsweredBy(polls: seq<seq<Delivery>>, from: nat, resp: seq<byte>) {
    exists i, j :: 0 <= i < |polls| && 0 <= j < |polls[i]| && polls[i][j].origin == from && resp == Stored(polls[i][j].packet.bytes)
  }

  /**
   * The bound of 256 cannot be dropped: an answer exactly that late is taken for the new one, even if
   * the two requests were about different handles or paths.
   */
  lemma LateAnswerIsTaken(log: seq<Request>, d: Delivery)
    requires |log| > 256 && SameKind(log[|log| - 257], log[|log| - 1])
    requires d.origin == |log| - 257 && FromPeer(d.packet, log[d.origin]) && Matches(d.packet, log[d.origin], d.origin)
    ensures Honest(d, log) && Hit([d], log[|log| - 1], |log| - 1)
  {
    SameSeq(d.origin, |log| - 1);
    assert LastFromPeer([d], log[|log| - 1]) == 0;
  }
}
