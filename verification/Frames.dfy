/**
 * The parser for commands arriving over the ROM3 address lines (tprotocol.c): one word at a time,
 * each with the microsecond clock, with resynchronisation after a pause.
 */
module Frames {
  import opened Words

  const PROTOCOL_HEADER: word := 0xABCD
  const RESTART_MICROSECONDS: nat := 10000
  const MAX_PAYLOAD_SIZE: nat := 2048 + 64
  const TWO_TO_64: nat := 0x1_0000_0000_0000_0000

  type time = x: int | 0 <= x < 0x1_0000_0000_0000_0000

  datatype Phase = HeaderDetection | CommandRead | PayloadSizeRead | PayloadReadStart | PayloadReadInProgress | PayloadReadEnd

  /** `TransmissionProtocol` with the parser's other variables. */
  datatype State = State(step: Phase, command: word, size: word, buffer: seq<byte>, bytesRead: nat, lastHeader: time)

  /** What the callback is handed. */
  datatype Message = Message(command: word, size: word, payload: seq<byte>)

  /** A word on the bus and the clock when it is seen. */
  datatype Tick = Tick(data: word, at: time)

  function Low(w: word): byte { w % 256 }

  function High(w: word): byte { w / 256 }

  /** The clock is unsigned: a difference never comes out negative. */
  function Elapsed(now: time, since: time): nat {
    (now - since) % TWO_TO_64
  }

  predicate Late(s: State, now: time) {
    Elapsed(now, s.lastHeader) > RESTART_MICROSECONDS
  }

  /** A word goes into the buffer; what would fall outside is not part of this model. */
  function Put(buffer: seq<byte>, at: nat, w: word): (r: seq<byte>)
    ensures |r| == |buffer|
  {
    if at + 2 <= |buffer| then buffer[at := Low(w)][at + 1 := High(w)] else buffer
  }

  function Delivery(s: State): Message {
    Message(s.command, s.size, s.buffer[..if s.size <= |s.buffer| then s.size else |s.buffer|])
  }

  function Reset(s: State): State {
    State(HeaderDetection, 0, 0, s.buffer, 0, 0)
  }

  function ReadPayload(s: State, data: word): State {
    var n := s.bytesRead + 2;
    State(if n >= s.size then PayloadReadEnd else PayloadReadInProgress, s.command, s.size,
          Put(s.buffer, s.bytesRead, data), n, s.lastHeader)
  }

  /** A complete message is delivered and the parser starts over. */
  function Finish(s: State): (State, seq<Message>) {
    if s.step == PayloadReadEnd then (Reset(s), [Delivery(s)]) else (s, [])
  }

  /** One word, when the pause before it has been dealt with. */
  function Consume(s: State, data: word, now: time): (State, seq<Message>) {
    match s.step
    case HeaderDetection =>
      (State(if data == PROTOCOL_HEADER then CommandRead else HeaderDetection, s.command, s.size, s.buffer, s.bytesRead, now), [])
    case CommandRead =>
      (State(PayloadSizeRead, data, s.size, s.buffer, s.bytesRead, s.lastHeader), [])
    case PayloadSizeRead =>
      if data > 0 then (State(PayloadReadStart, s.command, data, s.buffer, 0, s.lastHeader), [])
      else Finish(State(PayloadReadEnd, s.command, s.size, s.buffer, 0, s.lastHeader))
    case _ =>
      if s.bytesRead < s.size then Finish(ReadPayload(s, data)) else Finish(s)
  }

  function Step(s: State, t: Tick): (State, seq<Message>) {
    Consume(if Late(s, t.at) then s.(step := HeaderDetection) else s, t.data, t.at)
  }

  /** This word is not written outside the buffer. */
  predicate Safe(s: State, t: Tick) {
    var reading := !Late(s, t.at) && s.step in {PayloadReadStart, PayloadReadInProgress, PayloadReadEnd} && s.bytesRead < s.size;
    reading ==> s.bytesRead + 2 <= |s.buffer|
  }

  function Run(s: State, ts: seq<Tick>): (State, seq<Message>)
    decreases |ts|
  {
    if ts == [] then (s, [])
    else
      var first := Step(s, ts[0]);
      var rest := Run(first.0, ts[1..]);
      (rest.0, first.1 + rest.1)
  }

  predicate SafeRun(s: State, ts: seq<Tick>)
    decreases |ts|
  {
    ts == [] || (Safe(s, ts[0]) && SafeRun(Step(s, ts[0]).0, ts[1..]))
  }

  // -- The parser -----------------------------------------------------------------------------------

  class Parser {
    const payload: array<byte>
    var nextStep: Phase
    var commandId: word
    var payloadSize: word
    var bytesRead: nat
    var lastHeaderFound: time

    ghost predicate Valid()
      reads this
    {
      payload.Length == MAX_PAYLOAD_SIZE
    }

    ghost function Current(): State
      reads this, payload
    {
      State(nextStep, commandId, payloadSize, payload[..], bytesRead, lastHeaderFound)
    }

    constructor ()
      ensures Valid() && fresh(payload) && Idle(Current())
    {
      payload := new byte[MAX_PAYLOAD_SIZE](_ => 0);
      nextStep, commandId, payloadSize, bytesRead, lastHeaderFound := HeaderDetection, 0, 0, 0, 0;
    }

    /** `process_command`: the callback, then a fresh start. */
    method ProcessCommand() returns (m: Message)
      requires Valid()
      modifies this
      ensures Current() == Reset(old(Current())) && m == Delivery(old(Current()))
    {
      var n := if payloadSize <= payload.Length then payloadSize else payload.Length;
      m := Message(commandId, payloadSize, payload[..n]);
      commandId, payloadSize, bytesRead, lastHeaderFound := 0, 0, 0, 0;
      nextStep := HeaderDetection;
    }

    method ReadPayloadWord(data: word)
      requires Valid() && bytesRead + 2 <= payload.Length
      modifies this`bytesRead, this`nextStep, payload
      ensures Current() == ReadPayload(old(Current()), data)
    {
      payload[bytesRead] := data % 256;
      payload[bytesRead + 1] := data / 256;
      bytesRead := bytesRead + 2;
      nextStep := if bytesRead >= payloadSize then PayloadReadEnd else PayloadReadInProgress;
    }

    /** `parse_protocol`. */
    method Parse(data: word, now: time) returns (delivered: seq<Message>)
      requires Valid() && Safe(Current(), Tick(data, now))
      modifies this, payload
      ensures Valid() && (Current(), delivered) == Step(old(Current()), Tick(data, now))
    {
      delivered := [];
      if Elapsed(now, lastHeaderFound) > RESTART_MICROSECONDS { nextStep := HeaderDetection; }
      match nextStep {
        case HeaderDetection =>
          if data == PROTOCOL_HEADER { nextStep := CommandRead; }
          lastHeaderFound := now;
        case CommandRead =>
          commandId := data;
          nextStep := PayloadSizeRead;
        case PayloadSizeRead =>
          if data > 0 {
            payloadSize := data;
            nextStep := PayloadReadStart;
          } else {
            nextStep := PayloadReadEnd;
          }
          bytesRead := 0;
          if nextStep == PayloadReadEnd {
            var m := ProcessCommand();
            delivered := [m];
          }
        case _ =>
          if bytesRead < payloadSize { ReadPayloadWord(data); }
          if nextStep == PayloadReadEnd {
            var m := ProcessCommand();
            delivered := [m];
          }
      }
    }
  }

  /** The loop around the parser: every word on the bus, as it comes. */
  method Listen(parser: Parser, ts: seq<Tick>) returns (delivered: seq<Message>)
    requires parser.Valid() && SafeRun(parser.Current(), ts)
    modifies parser, parser.payload
    ensures (parser.Current(), delivered) == Run(old(parser.Current()), ts)
  {
    hide *;
    ghost var s := parser.Current();
    delivered := [];
    assert ts[0..] == ts;
    assert delivered + Run(s, ts).1 == Run(s, ts).1;
    for i := 0 to |ts|
      invariant parser.Valid() && SafeRun(parser.Current(), ts[i..])
      invariant Run(s, ts).0 == Run(parser.Current(), ts[i..]).0
      invariant Run(s, ts).1 == delivered + Run(parser.Current(), ts[i..]).1
    {
      RunNext(parser.Current(), ts, i, delivered);
      var out := parser.Parse(ts[i].data, ts[i].at);
      delivered := delivered + out;
    }
    RunNothing(parser.Current(), ts[|ts|..]);
    assert delivered + [] == delivered;
  }

  lemma RunNothing(s: State, ts: seq<Tick>)
    requires ts == []
    ensures Run(s, ts) == (s, [])
  {
  }

  lemma RunNext(s: State, ts: seq<Tick>, i: nat, before: seq<Message>)
    requires i < |ts| && SafeRun(s, ts[i..])
    ensures Safe(s, Tick(ts[i].data, ts[i].at))
    ensures var first := Step(s, Tick(ts[i].data, ts[i].at));
            && SafeRun(first.0, ts[i + 1..])
            && Run(s, ts[i..]).0 == Run(first.0, ts[i + 1..]).0
            && before + Run(s, ts[i..]).1 == before + first.1 + Run(first.0, ts[i + 1..]).1
  {
    hide Step, Safe;
    assert ts[i..][1..] == ts[i + 1..] && Tick(ts[i].data, ts[i].at) == ts[i];
  }

  // -- Frames ---------------------------------------------------------------------------------------

  /** A command as a sender puts it on the bus: an odd payload leaves half of its last word unused. */
  datatype Frame = Frame(command: word, size: word, body: seq<word>) {
    predicate WellFormed() { |body| == (size + 1) / 2 && size <= 2112 }
  }

  /** A word stands for two bytes, the low one first. */
  function Bytes(ws: seq<word>): (b: seq<byte>)
    ensures |b| == 2 * |ws|
  {
    if ws == [] then [] else Bytes(ws[..|ws| - 1]) + [ws[|ws| - 1] % 256, ws[|ws| - 1] / 256]
  }

  lemma {:induction false} PayloadByByte(ws: seq<word>, k: nat)
    requires k < |ws|
    ensures Bytes(ws)[2 * k] == ws[k] % 256 && Bytes(ws)[2 * k + 1] == ws[k] / 256
  {
    if k < |ws| - 1 { PayloadByByte(ws[..|ws| - 1], k); }
  }

  function Meaning(f: Frame): Message
    requires f.WellFormed()
  {
    Message(f.command, f.size, Bytes(f.body)[..f.size])
  }

  function FrameWords(f: Frame): seq<word> {
    [0xABCD, f.command, f.size] + f.body
  }

  function Ticks(ws: seq<word>, at: seq<time>): (ts: seq<Tick>)
    requires |ws| == |at|
    ensures |ts| == |ws| && forall k :: 0 <= k < |ws| ==> ts[k] == Tick(ws[k], at[k])
  {
    seq(|ws|, k requires 0 <= k < |ws| => Tick(ws[k], at[k]))
  }

  /** No word comes later than the restart window allows. */
  predicate Timely(at: seq<time>, start: time) {
    forall k :: 0 <= k < |at| ==> start <= at[k] <= start + 10000
  }

  /** Between messages. */
  predicate Idle(s: State) {
    s.step == HeaderDetection && s.size == 0 && |s.buffer| == MAX_PAYLOAD_SIZE
  }

  /** `k` words of the body have been read. */
  ghost predicate InBody(s: State, f: Frame, start: time, k: nat) {
    && f.WellFormed() && k < |f.body| && |s.buffer| == MAX_PAYLOAD_SIZE
    && s.step == (if k == 0 then PayloadReadStart else PayloadReadInProgress)
    && s.command == f.command && s.size == f.size && s.bytesRead == 2 * k && s.lastHeader == start
    && s.buffer[..2 * k] == Bytes(f.body[..k])
  }

  lemma NotLate(s: State, now: time)
    requires s.lastHeader <= now <= s.lastHeader + RESTART_MICROSECONDS
    ensures !Late(s, now)
  {
  }

  lemma PutGrows(buffer: seq<byte>, f: Frame, k: nat)
    requires k < |f.body| && 2 * k + 2 <= |buffer| && buffer[..2 * k] == Bytes(f.body[..k])
    ensures Put(buffer, 2 * k, f.body[k])[..2 * k + 2] == Bytes(f.body[..k + 1])
  {
    var w := f.body[k];
    assert f.body[..k + 1][..k] == f.body[..k] && f.body[..k + 1][k] == w;
    assert Put(buffer, 2 * k, w)[..2 * k + 2] == buffer[..2 * k] + [Low(w), High(w)];
  }

  /** One more word of the body. */
  lemma BodyStep(s: State, f: Frame, start: time, k: nat, t: Tick)
    requires InBody(s, f, start, k) && t.data == f.body[k] && start <= t.at <= start + RESTART_MICROSECONDS
    ensures Safe(s, t)
    ensures k + 1 < |f.body| ==> Step(s, t).1 == [] && InBody(Step(s, t).0, f, start, k + 1)
    ensures k + 1 == |f.body| ==> Step(s, t).1 == [Meaning(f)] && Idle(Step(s, t).0)
  {
    NotLate(s, t.at);
    PutGrows(s.buffer, f, k);
    hide Late, Put, Bytes;
    var r := ReadPayload(s, t.data);
    if k + 1 == |f.body| {
      assert f.body[..k + 1] == f.body;
      assert r.buffer[..f.size] == r.buffer[..2 * k + 2][..f.size];
    }
  }

  lemma {:induction false} BodyDelivers(s: State, f: Frame, start: time, k: nat, at: seq<time>)
    requires InBody(s, f, start, k) && |at| == |f.body| - k && Timely(at, start)
    ensures var ts := Ticks(f.body[k..], at);
            SafeRun(s, ts) && Run(s, ts).1 == [Meaning(f)] && Idle(Run(s, ts).0)
    decreases |at|
  {
    var ts := Ticks(f.body[k..], at);
    BodyStep(s, f, start, k, ts[0]);
    hide Step, InBody, Safe;
    if k + 1 < |f.body| {
      BodyDelivers(Step(s, ts[0]).0, f, start, k + 1, at[1..]);
      assert ts[1..] == Ticks(f.body[k + 1..], at[1..]);
    } else {
      assert ts[1..] == [];
    }
  }

  lemma RunCons(s: State, t: Tick, ts: seq<Tick>)
    ensures var first := Step(s, t);
            Run(s, [t] + ts) == (Run(first.0, ts).0, first.1 + Run(first.0, ts).1)
    ensures SafeRun(s, [t] + ts) <==> Safe(s, t) && SafeRun(Step(s, t).0, ts)
  {
    assert ([t] + ts)[1..] == ts;
  }

  /** Header, command and size, one after the other. */
  lemma FrameHead(s: State, f: Frame, t0: time, t1: time, t2: time, rest: seq<Tick>)
    requires f.WellFormed() && |s.buffer| == MAX_PAYLOAD_SIZE && (s.step == HeaderDetection || Late(s, t0))
    requires t0 <= t1 <= t0 + RESTART_MICROSECONDS && t0 <= t2 <= t0 + RESTART_MICROSECONDS
    ensures var ts := [Tick(PROTOCOL_HEADER, t0)] + ([Tick(f.command, t1)] + ([Tick(f.size, t2)] + rest));
            exists s' ::
              && Run(s, ts).0 == Run(s', rest).0 && (SafeRun(s, ts) <==> SafeRun(s', rest))
              && Run(s, ts).1 == (if f.size > 0 then [] else [EmptyDelivery(s, f.command)]) + Run(s', rest).1
              && if f.size > 0 then InBody(s', f, t0, 0) else Idle(s')
  {
    var a, b, c := Tick(PROTOCOL_HEADER, t0), Tick(f.command, t1), Tick(f.size, t2);
    var sa := State(CommandRead, s.command, s.size, s.buffer, s.bytesRead, t0);
    assert Step(s, a) == (sa, []) && Safe(s, a);
    var sb := State(PayloadSizeRead, f.command, s.size, s.buffer, s.bytesRead, t0);
    assert Step(sa, b) == (sb, []) && Safe(sa, b) by { NotLate(sa, t1); }
    NotLate(sb, t2);
    assert Safe(sb, c);
    var (s', out) := Step(sb, c);
    assert out == if f.size > 0 then [] else [EmptyDelivery(s, f.command)];
    assert if f.size > 0 then InBody(s', f, t0, 0) else Idle(s') by { assert s'.buffer[..0] == Bytes(f.body[..0]); }
    hide *;
    RunCons(sb, c, rest);
    RunCons(sa, b, [c] + rest);
    RunCons(s, a, [b] + ([c] + rest));
  }

  /** What an empty frame delivers: the size the parser happens to hold, and as much of the old buffer. */
  function EmptyDelivery(s: State, command: word): Message {
    Message(command, s.size, s.buffer[..if s.size <= |s.buffer| then s.size else |s.buffer|])
  }

  lemma FrameTicks(f: Frame, at: seq<time>)
    requires |at| == 3 + |f.body|
    ensures Ticks(FrameWords(f), at) ==
            [Tick(PROTOCOL_HEADER, at[0])] + ([Tick(f.command, at[1])] + ([Tick(f.size, at[2])] + Ticks(f.body[0..], at[3..])))
  {
  }

  lemma EmptyMeaning(s: State, f: Frame)
    requires f.WellFormed() && f.size == 0 && |s.buffer| == MAX_PAYLOAD_SIZE
    ensures EmptyDelivery(s, f.command) == Meaning(f) <==> s.size == 0
  {
  }

  /** An empty frame is delivered once whatever came before, but exactly if, and only if, no size is left over. */
  lemma EmptyIsExact(s: State, f: Frame, at: seq<time>)
    requires f.WellFormed() && f.size == 0 && |at| == 3 && Timely(at, at[0]) && |s.buffer| == MAX_PAYLOAD_SIZE
    requires s.step == HeaderDetection || Late(s, at[0])
    ensures var ts := Ticks(FrameWords(f), at);
            && SafeRun(s, ts) && Idle(Run(s, ts).0)
            && |Run(s, ts).1| == 1 && Run(s, ts).1[0].command == f.command && Run(s, ts).1[0].size == s.size
            && (Run(s, ts).1 == [Meaning(f)] <==> s.size == 0)
  {
    var rest := Ticks(f.body[0..], at[3..]);
    FrameTicks(f, at);
    FrameHead(s, f, at[0], at[1], at[2], rest);
    EmptyMeaning(s, f);
    hide Run, Step, Ticks, FrameWords, Meaning, Late;
    forall s': State ensures Run(s', rest) == (s', []) { RunNothing(s', rest); }
    assert SafeRun(s, Ticks(FrameWords(f), at));
  }

  /**
   * A frame that starts when the parser is ready for it, or after a pause longer than the window, is
   * delivered once and exactly, unless it is empty and an aborted frame has left its size behind.
   */
  lemma FrameDelivers(s: State, f: Frame, at: seq<time>)
    requires f.WellFormed() && |at| == 3 + |f.body| && Timely(at, at[0]) && |s.buffer| == MAX_PAYLOAD_SIZE
    requires s.step == HeaderDetection || Late(s, at[0])
    requires f.size > 0 || s.size == 0
    ensures var ts := Ticks(FrameWords(f), at);
            SafeRun(s, ts) && Run(s, ts).1 == [Meaning(f)] && Idle(Run(s, ts).0)
  {
    if f.size == 0 {
      EmptyIsExact(s, f, at);
    } else {
      var rest := Ticks(f.body[0..], at[3..]);
      FrameTicks(f, at);
      FrameHead(s, f, at[0], at[1], at[2], rest);
      hide *;
      forall s' | InBody(s', f, at[0], 0) ensures SafeRun(s', rest) && Run(s', rest).1 == [Meaning(f)] && Idle(Run(s', rest).0) {
        BodyDelivers(s', f, at[0], 0, at[3..]);
      }
    }
  }

  /**
   * A frame is given up after its size word, and after a pause an empty one follows: the empty one
   * is delivered with the size of the other.
   */
  lemma EmptyAfterAborted(s: State, c: word, n: word, t: time, f: Frame, at: seq<time>)
    requires Idle(s) && n > 0 && f.WellFormed() && f.size == 0
    requires |at| == 3 && t + 10000 < at[0] && Timely(at, at[0])
    ensures var ts := [Tick(PROTOCOL_HEADER, t)] + ([Tick(c, t)] + ([Tick(n, t)] + Ticks(FrameWords(f), at)));
            |Run(s, ts).1| == 1 && Run(s, ts).1[0].size == n && Run(s, ts).1 != [Meaning(f)]
  {
    var ts := Ticks(FrameWords(f), at);
    var sa := State(CommandRead, s.command, s.size, s.buffer, s.bytesRead, t);
    assert Step(s, Tick(PROTOCOL_HEADER, t)) == (sa, []);
    var sb := State(PayloadSizeRead, c, s.size, s.buffer, s.bytesRead, t);
    assert Step(sa, Tick(c, t)) == (sb, []) by { NotLate(sa, t); }
    var sc := State(PayloadReadStart, c, n, s.buffer, 0, t);
    assert Step(sb, Tick(n, t)) == (sc, []) by { NotLate(sb, t); }
    assert Late(sc, at[0]);
    FrameTicks(f, at);
    FrameHead(sc, f, at[0], at[1], at[2], Ticks(f.body[0..], at[3..]));
    hide Step, Late, Safe, Ticks, FrameWords;
    RunCons(sb, Tick(n, t), ts);
    RunCons(sa, Tick(c, t), [Tick(n, t)] + ts);
    RunCons(s, Tick(PROTOCOL_HEADER, t), [Tick(c, t)] + ([Tick(n, t)] + ts));
  }

  // -- Whole streams --------------------------------------------------------------------------------

  /** Words that are not headers may come between frames. */
  datatype Item = Noise(tick: Tick) | Sent(frame: Frame, at: seq<time>) {
    predicate WellFormed() {
      match this
      case Noise(t) => t.data != 0xABCD
      case Sent(f, at) => f.WellFormed() && |at| == 3 + |f.body| && Timely(at, at[0])
    }

    function Words(): seq<Tick>
      requires WellFormed()
    {
      match this
      case Noise(t) => [t]
      case Sent(f, at) => Ticks(FrameWords(f), at)
    }

    function Messages(): seq<Message>
      requires WellFormed()
    {
      match this
      case Noise(_) => []
      case Sent(f, _) => [Meaning(f)]
    }
  }

  predicate AllWellFormed(items: seq<Item>) {
    forall i :: 0 <= i < |items| ==> items[i].WellFormed()
  }

  function StreamWords(items: seq<Item>): seq<Tick>
    requires AllWellFormed(items)
  {
    if items == [] then [] else items[0].Words() + StreamWords(items[1..])
  }

  function StreamMessages(items: seq<Item>): seq<Message>
    requires AllWellFormed(items)
  {
    if items == [] then [] else items[0].Messages() + StreamMessages(items[1..])
  }

  lemma {:induction false} RunAppend(s: State, a: seq<Tick>, b: seq<Tick>)
    ensures var first := Run(s, a);
            && Run(s, a + b).0 == Run(first.0, b).0 && Run(s, a + b).1 == first.1 + Run(first.0, b).1
            && (SafeRun(s, a + b) <==> SafeRun(s, a) && SafeRun(first.0, b))
    decreases |a|
  {
    hide Step, Safe;
    if a == [] {
      assert a + b == b;
    } else {
      RunAppend(Step(s, a[0]).0, a[1..], b);
      assert (a + b)[1..] == a[1..] + b;
    }
  }

  /** The parser is about to look for a header, or the pause before this item makes it do so. */
  predicate ReadyFor(s: State, item: Item)
    requires item.WellFormed()
  {
    || Idle(s)
    || (item.Sent? && item.frame.size > 0 && |s.buffer| == MAX_PAYLOAD_SIZE && Late(s, item.at[0]))
  }

  lemma ItemDelivers(s: State, item: Item)
    requires item.WellFormed() && ReadyFor(s, item)
    ensures SafeRun(s, item.Words()) && Run(s, item.Words()).1 == item.Messages() && Idle(Run(s, item.Words()).0)
  {
    match item
    case Noise(t) =>
      assert [t][1..] == [];
    case Sent(f, at) =>
      FrameDelivers(s, f, at);
  }

  /**
   * Every frame of a stream is delivered once, in order and exactly, and nothing else is: from a
   * fresh parser, or from any state at all if the stream starts with a frame after a pause.
   */
  lemma {:induction false} StreamDelivers(s: State, items: seq<Item>)
    requires AllWellFormed(items) && (Idle(s) || (items != [] && ReadyFor(s, items[0])))
    ensures var ts := StreamWords(items);
            SafeRun(s, ts) && Run(s, ts).1 == StreamMessages(items) && Idle(Run(s, ts).0)
    decreases |items|
  {
    if items != [] {
      ItemDelivers(s, items[0]);
      hide Idle, ReadyFor, Step, Safe;
      var first := items[0].Words();
      StreamDelivers(Run(s, first).0, items[1..]);
      RunAppend(s, first, StreamWords(items[1..]));
    }
  }
}
