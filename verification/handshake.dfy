/** The command handshake and the initialisation of a direct HCI session, against any behaviour of the controller. */
module Handshake {
  import opened Bytes
  import opened Durations
  import opened Session

  const COMMAND_PACKET: byte := 0x01
  const CMD_COMPLETE: byte := 0x0E
  const CMD_STATUS: byte := 0x0F

  const OP_RESET: nat := 0x0C03
  const OP_SET_EVENT_MASK: nat := 0x0C01
  const OP_LE_READ_FEATURES: nat := 0x2003
  const OP_LE_SET_EVENT_MASK: nat := 0x2001
  const OP_LE_SET_SCAN_PARAM: nat := 0x200B
  const OP_LE_SET_SCAN_ENABLE: nat := 0x200C
  const OP_LE_SET_EXT_SCAN_PARAM: nat := 0x2041
  const OP_LE_SET_EXT_SCAN_ENABLE: nat := 0x2042

  const CMD_TIMEOUT := 2 * SECOND

  /** One initialisation command. */
  datatype Command = Command(op: nat, params: seq<byte>) {
    predicate Encodable() {
      op < 0x1_0000 && |params| < 256
    }

    function Encode(): seq<byte> {
      [COMMAND_PACKET, Low(op), High(op), Low(|params|)] + params
    }
  }

  /** The command a packet holds. */
  function Decode(packet: seq<byte>): Option<Command> {
    if |packet| >= 4 && packet[0] == COMMAND_PACKET && packet[3] as nat == |packet| - 4
    then Some(Command(LE16(packet[1], packet[2]), packet[4..]))
    else None
  }

  lemma DecodeEncode(c: Command)
    requires c.Encodable()
    ensures Decode(c.Encode()) == Some(c)
  {
  }

  /** The answer of an event to a command. */
  datatype Answer = Answer(status: byte, ret: seq<byte>)

  /** cmdResult: the answer to this command, if the event is one. */
  function CmdResult(ev: seq<byte>, op: nat): Option<Answer> {
    if |ev| >= 6 && ev[0] == CMD_COMPLETE && LE16(ev[3], ev[4]) == op then Some(Answer(ev[5], ev[6..]))
    else if |ev| >= 6 && ev[0] == CMD_STATUS && LE16(ev[4], ev[5]) == op then Some(Answer(ev[2], []))
    else None
  }

  // ---------------------------------------------------------------------------------------------------------
  // The controller.

  /** A write succeeds or fails at some time; a read is made after the clock was looked at. */
  datatype Write = Write(ok: bool, at: int)
  datatype TimedRead = TimedRead(at: int, read: Read)

  /** What went over the socket: packets written, packets read. */
  datatype Io = Sent(packet: seq<byte>) | Got(packet: seq<byte>)

  datatype Failure = WriteError | ReadError | BadStatus(status: byte) | TimedOut

  datatype Outcome = Done(ret: seq<byte>) | Failed(failure: Failure)

  /** The answer to a command in a packet read, if it is one. */
  function AnswerIn(packet: seq<byte>, op: nat): Option<Answer> {
    if |packet| < 3 || packet[0] != EVENT_PACKET then None else CmdResult(packet[1..], op)
  }

  /** Command Complete: the opcode follows the number of commands allowed, then come the status and the return parameters. */
  lemma CompleteAnswers(paramLen: byte, allowed: byte, op: nat, status: byte, ret: seq<byte>, asked: nat)
    requires op < 0x1_0000
    ensures AnswerIn([0x04, 0x0E, paramLen, allowed, Low(op), High(op), status] + ret, asked)
         == if asked == op then Some(Answer(status, ret)) else None
  {
    WordComesBack(op);
    var packet := [0x04, 0x0E, paramLen, allowed, Low(op), High(op), status] + ret;
    assert packet[1..][6..] == ret;
  }

  /** Command Status: the status comes first, there are no return parameters, and bytes after the opcode do not matter. */
  lemma StatusAnswers(paramLen: byte, allowed: byte, op: nat, status: byte, rest: seq<byte>, asked: nat)
    requires op < 0x1_0000
    ensures AnswerIn([0x04, 0x0F, paramLen, status, allowed, Low(op), High(op)] + rest, asked)
         == if asked == op then Some(Answer(status, [])) else None
  {
    WordComesBack(op);
  }

  /** No other packet answers a command. */
  lemma OthersDoNotAnswer(packet: seq<byte>, op: nat)
    requires |packet| < 7 || packet[0] != 0x04 || (packet[1] != 0x0E && packet[1] != 0x0F)
    ensures AnswerIn(packet, op) == None
  {
  }

  /** What waiting for an answer gives: the packets heard, the reads left, the outcome. */
  datatype Wait = Wait(heard: seq<Io>, rest: seq<TimedRead>, outcome: Outcome)

  function Verdict(a: Answer): Outcome {
    if a.status != 0 then Failed(BadStatus(a.status)) else Done(a.ret)
  }

  /** The wait for the answer to a command, until the clock is seen at or past the deadline. */
  function Await(incoming: seq<TimedRead>, op: nat, deadline: int): Wait
    decreases incoming
  {
    if incoming == [] || incoming[0].at >= deadline then Wait([], incoming, Failed(TimedOut))
    else
      match incoming[0].read
      case Broken => Wait([], incoming[1..], Failed(ReadError))
      case Retry => Await(incoming[1..], op, deadline)
      case Packet(packet) =>
        var answer := AnswerIn(packet, op);
        if answer.Some? then Wait([Got(packet)], incoming[1..], Verdict(answer.value))
        else
          var w := Await(incoming[1..], op, deadline);
          Wait([Got(packet)] + w.heard, w.rest, w.outcome)
  }

  /** The packets heard so far, then what the rest of the wait gives. */
  ghost function HeardThen(heard: seq<Io>, w: Wait): Wait {
    Wait(heard + w.heard, w.rest, w.outcome)
  }

  /** One more read of a wait. */
  lemma AwaitNext(all: Wait, heard: seq<Io>, incoming: seq<TimedRead>, op: nat, deadline: int)
    requires incoming != [] && incoming[0].at < deadline
    requires all == HeardThen(heard, Await(incoming, op, deadline))
    ensures match incoming[0].read
            case Broken => all == Wait(heard, incoming[1..], Failed(ReadError))
            case Retry => all == HeardThen(heard, Await(incoming[1..], op, deadline))
            case Packet(packet) =>
              if AnswerIn(packet, op).Some? then
                all == Wait(heard + [Got(packet)], incoming[1..], Verdict(AnswerIn(packet, op).value))
              else all == HeardThen(heard + [Got(packet)], Await(incoming[1..], op, deadline))
  {
    hide AnswerIn;
  }

  lemma AwaitStarts(w: Wait)
    ensures w == HeardThen([], w)
  {
  }

  lemma AwaitEnds(all: Wait, heard: seq<Io>, incoming: seq<TimedRead>, op: nat, deadline: int)
    requires incoming == [] || incoming[0].at >= deadline
    requires all == HeardThen(heard, Await(incoming, op, deadline))
    ensures all == Wait(heard, incoming, Failed(TimedOut))
  {
  }

  lemma LoggedNext(log: seq<Io>, sent: Io, heard: seq<Io>, got: Io)
    ensures log + ([sent] + heard) + [got] == log + ([sent] + (heard + [got]))
  {
  }

  /** A read that leaves the wait going on. */
  predicate Passed(r: TimedRead, op: nat, deadline: int) {
    r.at < deadline && (r.read.Retry? || (r.read.Packet? && AnswerIn(r.read.bytes, op).None?))
  }

  /** The wait ends in an answer exactly when every read before the answering one leaves it going on and none is late. */
  lemma {:induction false} AnsweredExactly(incoming: seq<TimedRead>, op: nat, deadline: int, n: nat)
    requires n < |incoming| && forall k | 0 <= k < n :: Passed(incoming[k], op, deadline)
    requires !Passed(incoming[n], op, deadline)
    ensures var w := Await(incoming, op, deadline);
            && (w.outcome == Failed(TimedOut) <==> incoming[n].at >= deadline)
            && (w.outcome == Failed(ReadError) <==> incoming[n].at < deadline && incoming[n].read.Broken?)
            && (incoming[n].at < deadline && incoming[n].read.Packet? ==>
                  var a := AnswerIn(incoming[n].read.bytes, op).value;
                  && w.outcome == (if a.status == 0 then Done(a.ret) else Failed(BadStatus(a.status)))
                  && w.rest == incoming[n + 1..])
    decreases n
  {
    if n > 0 {
      AnsweredExactly(incoming[1..], op, deadline, n - 1);
    }
  }

  /** Packets heard while waiting do not answer the command, but for the last, which decides. */
  ghost predicate Deciding(op: nat, heard: seq<Io>, outcome: Outcome) {
    && (forall k | 0 <= k < |heard| :: heard[k].Got?)
    && (forall k | 0 <= k < |heard| - 1 :: AnswerIn(heard[k].packet, op).None?)
    && (outcome.Done? ==> heard != [] && AnswerIn(heard[|heard| - 1].packet, op) == Some(Answer(0, outcome.ret)))
  }

  lemma {:induction false} AwaitHears(incoming: seq<TimedRead>, op: nat, deadline: int)
    ensures var w := Await(incoming, op, deadline); Deciding(op, w.heard, w.outcome)
    decreases incoming
  {
    if incoming != [] && incoming[0].at < deadline && !incoming[0].read.Broken? {
      AwaitHears(incoming[1..], op, deadline);
      var w := Await(incoming[1..], op, deadline);
      if incoming[0].read.Packet? && AnswerIn(incoming[0].read.bytes, op).None? {
        var heard := [Got(incoming[0].read.bytes)] + w.heard;
        assert forall k | 1 <= k < |heard| :: heard[k] == w.heard[k - 1];
      }
    }
  }

  // ---------------------------------------------------------------------------------------------------------
  // Commands one after another.

  /** A command on a socket with these writes and reads to come: how it ends, and what is left of both. */
  function Exchange(op: nat, outgoing: seq<Write>, incoming: seq<TimedRead>): (Outcome, seq<Write>, seq<TimedRead>) {
    if outgoing == [] then (Failed(WriteError), [], incoming)
    else if !outgoing[0].ok then (Failed(WriteError), outgoing[1..], incoming)
    else
      var w := Await(incoming, op, outgoing[0].at + CMD_TIMEOUT);
      (w.outcome, outgoing[1..], w.rest)
  }

  /** Commands in order up to the first that fails. */
  function Sequence(steps: seq<Command>, outgoing: seq<Write>, incoming: seq<TimedRead>)
    : (Option<Failure>, seq<Write>, seq<TimedRead>)
    decreases steps
  {
    if steps == [] then (None, outgoing, incoming)
    else
      var (outcome, left, unread) := Exchange(steps[0].op, outgoing, incoming);
      if outcome.Failed? then (Some(outcome.failure), left, unread) else Sequence(steps[1..], left, unread)
  }

  /** The reads left when k commands have been written and their answers awaited. */
  function ReadsLeft(steps: seq<Command>, outgoing: seq<Write>, incoming: seq<TimedRead>, k: nat): seq<TimedRead>
    requires k <= |steps| && k <= |outgoing|
    decreases k
  {
    if k == 0 then incoming
    else ReadsLeft(steps[1..], outgoing[1..], Await(incoming, steps[0].op, outgoing[0].at + 2_000_000_000).rest, k - 1)
  }

  /** The k-th write succeeds and its wait ends in an answer with status 0. */
  ghost predicate IsDone(steps: seq<Command>, outgoing: seq<Write>, incoming: seq<TimedRead>, k: nat)
    requires k < |steps|
  {
    && k < |outgoing| && outgoing[k].ok
    && Await(ReadsLeft(steps, outgoing, incoming, k), steps[k].op, outgoing[k].at + 2_000_000_000).outcome.Done?
  }

  ghost predicate AllDone(steps: seq<Command>, outgoing: seq<Write>, incoming: seq<TimedRead>) {
    forall k | 0 <= k < |steps| :: IsDone(steps, outgoing, incoming, k)
  }

  /** A sequence of commands succeeds exactly when every write succeeds and every wait is done. */
  lemma {:induction false} SucceedsExactly(steps: seq<Command>, outgoing: seq<Write>, incoming: seq<TimedRead>)
    ensures Sequence(steps, outgoing, incoming).0.None? <==> AllDone(steps, outgoing, incoming)
    decreases steps
  {
    hide Await;
    if steps != [] {
      var (outcome, left, unread) := Exchange(steps[0].op, outgoing, incoming);
      assert outcome.Done? <==> IsDone(steps, outgoing, incoming, 0);
      if outcome.Done? {
        SucceedsExactly(steps[1..], left, unread);
        forall k | 1 <= k < |steps|
          ensures IsDone(steps, outgoing, incoming, k) <==> IsDone(steps[1..], left, unread, k - 1)
        {
        }
        assert forall k | 0 <= k < |steps[1..]| ::
            IsDone(steps[1..], left, unread, k) <==> IsDone(steps, outgoing, incoming, k + 1);
      }
    }
  }

  lemma {:induction false} SequenceConcat(a: seq<Command>, b: seq<Command>, outgoing: seq<Write>, incoming: seq<TimedRead>)
    ensures var (failure, left, unread) := Sequence(a, outgoing, incoming);
            Sequence(a + b, outgoing, incoming) ==
            if failure.Some? then (failure, left, unread) else Sequence(b, left, unread)
    decreases a
  {
    hide Exchange;
    if a == [] {
      assert a + b == b;
    } else {
      var (outcome, left, unread) := Exchange(a[0].op, outgoing, incoming);
      assert (a + b)[0] == a[0] && (a + b)[1..] == a[1..] + b;
      if outcome.Done? {
        SequenceConcat(a[1..], b, left, unread);
      }
    }
  }

  // ---------------------------------------------------------------------------------------------------------
  // Properties of the traffic.

  /** The commands written, in order. */
  function CommandsOf(log: seq<Io>): seq<Command> {
    if log == [] then []
    else
      var last := log[|log| - 1];
      CommandsOf(log[..|log| - 1]) +
      (if last.Sent? && Decode(last.packet).Some? then [Decode(last.packet).value] else [])
  }

  /** Packet k is the first answer to the command written at i, and its status is 0. */
  ghost predicate Completes(log: seq<Io>, i: nat, k: nat)
    requires i < k < |log| && log[i].Sent? && Decode(log[i].packet).Some?
  {
    var op := Decode(log[i].packet).value.op;
    && log[k].Got? && AnswerIn(log[k].packet, op).Some? && AnswerIn(log[k].packet, op).value.status == 0
    && forall m | i < m < k :: log[m].Got? && AnswerIn(log[m].packet, op).None?
  }

  ghost predicate CompletedBefore(log: seq<Io>, i: nat, j: nat)
    requires i < |log| && log[i].Sent? && Decode(log[i].packet).Some? && j <= |log|
  {
    exists k: nat :: i < k < j && Completes(log, i, k)
  }

  /** Every packet written is a command, and it is written only after all commands before it completed with status 0. */
  ghost predicate Orderly(log: seq<Io>) {
    && (forall i | 0 <= i < |log| && log[i].Sent? :: Decode(log[i].packet).Some?)
    && (forall i: nat, j: nat | i < j < |log| && log[i].Sent? && log[j].Sent? :: CompletedBefore(log, i, j))
  }

  /** No command is waiting for its completion. */
  ghost predicate Settled(log: seq<Io>) {
    Orderly(log) && forall i: nat | i < |log| && log[i].Sent? :: CompletedBefore(log, i, |log|)
  }

  lemma NothingSent()
    ensures Settled([]) && CommandsOf([]) == []
  {
  }

  lemma CompletedBeforeGrows(log: seq<Io>, more: seq<Io>, i: nat, j: nat, n: nat)
    requires i < |log| && log[i].Sent? && Decode(log[i].packet).Some? && j <= |log| && CompletedBefore(log, i, j)
    requires j <= n <= |log + more|
    ensures CompletedBefore(log + more, i, n)
  {
    var k: nat :| i < k < j && Completes(log, i, k);
    assert forall m | 0 <= m <= k :: (log + more)[m] == log[m];
    assert Completes(log + more, i, k);
  }

  /** One more command on a settled link keeps the traffic orderly, and settled if it completes with status 0. */
  lemma ExchangeOrderly(log: seq<Io>, packet: seq<byte>, heard: seq<Io>, outcome: Outcome)
    requires Settled(log) && Decode(packet).Some? && Deciding(Decode(packet).value.op, heard, outcome)
    ensures var log' := log + ([Sent(packet)] + heard);
            Orderly(log') && (outcome.Done? ==> Settled(log'))
  {
    hide Decode, AnswerIn;
    var traffic := [Sent(packet)] + heard;
    var log' := log + traffic;
    var at := |log|;
    assert log'[at] == Sent(packet);
    assert forall m | at < m < |log'| :: log'[m] == heard[m - at - 1];
    forall i: nat, j: nat | i < at && i < j <= |log'| && log'[i].Sent? && (j >= at || log'[j].Sent?)
      ensures CompletedBefore(log', i, j)
    {
      CompletedBeforeGrows(log, traffic, i, if j < at then j else at, j);
    }
    if outcome.Done? {
      assert Completes(log', at, |log'| - 1);
      assert CompletedBefore(log', at, |log'|);
    }
  }

  lemma CommandsOfSnoc(log: seq<Io>, io: Io)
    ensures CommandsOf(log + [io]) ==
            CommandsOf(log) + if io.Sent? && Decode(io.packet).Some? then [Decode(io.packet).value] else []
  {
    hide Decode;
    assert (log + [io])[..|log + [io]| - 1] == log;
  }

  lemma {:induction false} CommandsOfHeard(log: seq<Io>, heard: seq<Io>)
    requires forall k | 0 <= k < |heard| :: heard[k].Got?
    ensures CommandsOf(log + heard) == CommandsOf(log)
    decreases heard
  {
    hide CommandsOf;
    if heard == [] {
      assert log + heard == log;
    } else {
      var n := |heard| - 1;
      assert log + heard == log + heard[..n] + [heard[n]];
      CommandsOfSnoc(log + heard[..n], heard[n]);
      CommandsOfHeard(log, heard[..n]);
    }
  }

  lemma CommandsOfExchange(log: seq<Io>, c: Command, heard: seq<Io>)
    requires c.Encodable() && forall k | 0 <= k < |heard| :: heard[k].Got?
    ensures CommandsOf(log + ([Sent(c.Encode())] + heard)) == CommandsOf(log) + [c]
  {
    hide CommandsOf, Decode, Command.Encode;
    DecodeEncode(c);
    CommandsOfSnoc(log, Sent(c.Encode()));
    CommandsOfHeard(log + [Sent(c.Encode())], heard);
    assert log + ([Sent(c.Encode())] + heard) == log + [Sent(c.Encode())] + heard;
  }

  // ---------------------------------------------------------------------------------------------------------
  // The plan.

  function Milliseconds(ns: int): (ms: real)
    ensures ms * 1_000_000.0 == ns as real
  {
    ns as real / 1_000_000.0
  }

  /** scanUnits: an interval in units of 0.625 ms, rounded down and clamped to what a controller accepts. */
  function ScanUnits(ms: real, default: nat): (units: nat)
    ensures ms <= 0.0 ==> units == default
    ensures ms > 0.0 ==> 4 <= units <= 0x4000
    ensures 0.0 < ms < 4.0 * 0.625 ==> units == 4
    ensures ms > 0x4000 as real * 0.625 ==> units == 0x4000
    ensures 4.0 * 0.625 <= ms <= 0x4000 as real * 0.625 ==> units as real * 0.625 <= ms < (units + 1) as real * 0.625
  {
    if ms <= 0.0 then default
    else
      var u := ms / 0.625;
      var low := if u < 4.0 then 4.0 else u;
      var clamped := if low > 0x4000 as real then 0x4000 as real else low;
      clamped.Floor
  }

  /** Reset, then the kernel's default event mask 0x3DBFF807FFFBFFFF. */
  function Preamble(): seq<Command> {
    [Command(OP_RESET, []), Command(OP_SET_EVENT_MASK, [0xFF, 0xFF, 0xFB, 0xFF, 0x07, 0xF8, 0xBF, 0x3D])]
  }

  /** Bit b of a byte. */
  predicate Bit(x: byte, b: nat)
    requires b < 8
  {
    x / [1, 2, 4, 8, 16, 32, 64, 128][b] % 2 == 1
  }

  /** Feature bit 12, extended advertising, and bit 11, the coded PHY. */
  predicate ExtendedSupported(feat: seq<byte>) {
    |feat| >= 2 && Bit(feat[1], 4)
  }

  predicate CodedSupported(feat: seq<byte>) {
    ExtendedSupported(feat) && Bit(feat[1], 3)
  }

  /** Passive scanning with this interval and window. */
  function PhyBlock(interval: nat, window: nat): seq<byte> {
    [0, Low(interval), High(interval), Low(window), High(window)]
  }

  /** Public own address, all advertisers, the PHYs to scan, and a block for each of them. */
  function ExtendedParams(coded: bool, interval: nat, window: nat): seq<byte> {
    var block := PhyBlock(interval, window);
    if coded then [0, 0, 0x05] + block + block else [0, 0, 0x01] + block
  }

  function LegacyParams(interval: nat, window: nat): seq<byte> {
    PhyBlock(interval, window) + [0, 0]
  }

  /** The commands that start scanning, which depend on the features of the controller. */
  function ScanSteps(feat: seq<byte>, interval: nat, window: nat): seq<Command> {
    if ExtendedSupported(feat) then
      [Command(OP_LE_SET_EVENT_MASK, [0x1F, 0x10, 0, 0, 0, 0, 0, 0]),
       Command(OP_LE_SET_EXT_SCAN_PARAM, ExtendedParams(CodedSupported(feat), interval, window)),
       Command(OP_LE_SET_EXT_SCAN_ENABLE, [1, 0, 0, 0, 0, 0])]
    else
      [Command(OP_LE_SET_EVENT_MASK, [0x1F, 0, 0, 0, 0, 0, 0, 0]),
       Command(OP_LE_SET_SCAN_PARAM, LegacyParams(interval, window)),
       Command(OP_LE_SET_SCAN_ENABLE, [1, 0])]
  }

  /** All commands of an initialisation for these features and configured durations, in nanoseconds. */
  function Plan(feat: seq<byte>, scanInterval: int, scanWindow: int): seq<Command> {
    var interval := ScanUnits(Milliseconds(scanInterval), 0x10);
    var window := ScanUnits(Milliseconds(scanWindow), 0x10);
    Preamble() + [Command(OP_LE_READ_FEATURES, [])]
    + ScanSteps(feat, interval, if window > interval then interval else window)
  }

  lemma PreambleBytes()
    ensures var p := Preamble();
            && |p| == 2 && p[0].Encode() == [0x01, 0x03, 0x0C, 0]
            && p[1].Encode() == [0x01, 0x01, 0x0C, 8, 0xFF, 0xFF, 0xFB, 0xFF, 0x07, 0xF8, 0xBF, 0x3D]
    ensures Command(OP_LE_READ_FEATURES, []).Encode() == [0x01, 0x03, 0x20, 0]
  {
  }

  lemma LegacyBytes(feat: seq<byte>, i: nat, w: nat)
    requires |feat| < 2 || feat[1] / 16 % 2 == 0
    ensures var steps := ScanSteps(feat, i, w);
            && |steps| == 3
            && steps[0].Encode() == [0x01, 0x01, 0x20, 8, 0x1F, 0, 0, 0, 0, 0, 0, 0]
            && steps[1].Encode() == [0x01, 0x0B, 0x20, 7, 0, Low(i), High(i), Low(w), High(w), 0, 0]
            && steps[2].Encode() == [0x01, 0x0C, 0x20, 2, 1, 0]
  {
    var il, ih, wl, wh := Low(i), High(i), Low(w), High(w);
    assert LegacyParams(i, w) == [0, il, ih, wl, wh, 0, 0];
  }

  lemma ExtendedParamBytes(coded: bool, i: nat, w: nat)
    ensures ExtendedParams(coded, i, w) ==
            if coded then [0, 0, 0x05, 0, Low(i), High(i), Low(w), High(w), 0, Low(i), High(i), Low(w), High(w)]
            else [0, 0, 0x01, 0, Low(i), High(i), Low(w), High(w)]
  {
    hide Low, High;
  }

  lemma Encoded(op: nat, params: seq<byte>, low: byte, high: byte)
    requires op == low + 256 * high && |params| < 256
    ensures Command(op, params).Encode() == [0x01, low, high, |params| as byte] + params
  {
  }

  lemma ExtendedBytes(feat: seq<byte>, i: nat, w: nat)
    requires |feat| >= 2 && feat[1] / 16 % 2 == 1
    ensures var steps := ScanSteps(feat, i, w);
            && |steps| == 3
            && steps[0].Encode() == [0x01, 0x01, 0x20, 8, 0x1F, 0x10, 0, 0, 0, 0, 0, 0]
            && steps[1].Encode() ==
               (if feat[1] / 8 % 2 == 1
                then [0x01, 0x41, 0x20, 13, 0, 0, 0x05, 0, Low(i), High(i), Low(w), High(w), 0, Low(i), High(i), Low(w), High(w)]
                else [0x01, 0x41, 0x20, 8, 0, 0, 0x01, 0, Low(i), High(i), Low(w), High(w)])
            && steps[2].Encode() == [0x01, 0x42, 0x20, 6, 1, 0, 0, 0, 0, 0]
  {
    hide Low, High, ExtendedParams, Command.Encode;
    var coded := feat[1] / 8 % 2 == 1;
    ExtendedParamBytes(coded, i, w);
    Encoded(0x2001, [0x1F, 0x10, 0, 0, 0, 0, 0, 0], 0x01, 0x20);
    Encoded(0x2041, ExtendedParams(coded, i, w), 0x41, 0x20);
    Encoded(0x2042, [1, 0, 0, 0, 0, 0], 0x42, 0x20);
    Prefixed(ExtendedParams(coded, i, w), if coded then 13 else 8);
  }

  lemma Prefixed(params: seq<byte>, n: byte)
    requires |params| == n
    ensures n == 13 ==>
              [0x01, 0x41, 0x20, n] + params
              == [0x01, 0x41, 0x20, 13, params[0], params[1], params[2], params[3], params[4], params[5], params[6], params[7],
                  params[8], params[9], params[10], params[11], params[12]]
    ensures n == 8 ==>
              [0x01, 0x41, 0x20, n] + params
              == [0x01, 0x41, 0x20, 8, params[0], params[1], params[2], params[3], params[4], params[5], params[6], params[7]]
  {
  }

  /** All commands of an initialisation, byte by byte. */
  lemma PlanBytes(feat: seq<byte>, scanInterval: int, scanWindow: int)
    ensures var plan := Plan(feat, scanInterval, scanWindow);
            var i, wanted := ScanUnits(Milliseconds(scanInterval), 0x10), ScanUnits(Milliseconds(scanWindow), 0x10);
            var w := if wanted > i then i else wanted;
            var extended := |feat| >= 2 && feat[1] / 16 % 2 == 1;
            var coded := extended && feat[1] / 8 % 2 == 1;
            && |plan| == 6
            && plan[0].Encode() == [0x01, 0x03, 0x0C, 0]
            && plan[1].Encode() == [0x01, 0x01, 0x0C, 8, 0xFF, 0xFF, 0xFB, 0xFF, 0x07, 0xF8, 0xBF, 0x3D]
            && plan[2].Encode() == [0x01, 0x03, 0x20, 0]
            && plan[3].Encode() == [0x01, 0x01, 0x20, 8, 0x1F, if extended then 0x10 else 0, 0, 0, 0, 0, 0, 0]
            && plan[4].Encode() ==
               (if coded
                then [0x01, 0x41, 0x20, 13, 0, 0, 0x05, 0, Low(i), High(i), Low(w), High(w), 0, Low(i), High(i), Low(w), High(w)]
                else if extended then [0x01, 0x41, 0x20, 8, 0, 0, 0x01, 0, Low(i), High(i), Low(w), High(w)]
                else [0x01, 0x0B, 0x20, 7, 0, Low(i), High(i), Low(w), High(w), 0, 0])
            && plan[5].Encode() ==
               (if extended then [0x01, 0x42, 0x20, 6, 1, 0, 0, 0, 0, 0] else [0x01, 0x0C, 0x20, 2, 1, 0])
  {
    hide ScanUnits, ScanSteps, Preamble, Command.Encode, Low, High;
    var i, wanted := ScanUnits(Milliseconds(scanInterval), 0x10), ScanUnits(Milliseconds(scanWindow), 0x10);
    var w := if wanted > i then i else wanted;
    PreambleBytes();
    if |feat| >= 2 && feat[1] / 16 % 2 == 1 {
      ExtendedBytes(feat, i, w);
    } else {
      LegacyBytes(feat, i, w);
    }
  }

  /**
   What they do: reset first; LE events are let through, and of those the reports, in the extended form exactly when the
   controller supports it; scanning ends up enabled, without duplicate filtering and without an end. Extended commands are
   used exactly with feature bit 12, the coded PHY exactly with bit 11 as well.
   */
  lemma PlanEnables(feat: seq<byte>, scanInterval: int, scanWindow: int)
    ensures var plan := Plan(feat, scanInterval, scanWindow);
            var extended := |feat| >= 2 && feat[1] / 16 % 2 == 1;
            var last := plan[5];
            && |plan| == 6 && plan[0].op == 0x0C03 && plan[0].params == []
            && plan[1].op == 0x0C01 && |plan[1].params| == 8 && plan[1].params[7] / 32 % 2 == 1
            && plan[3].op == 0x2001 && |plan[3].params| == 8 && plan[3].params[0] / 2 % 2 == 1
            && (plan[3].params[1] / 16 % 2 == 1 <==> extended)
            && plan[4].op == (if extended then 0x2041 else 0x200B)
            && (extended ==> |plan[4].params| >= 3 && plan[4].params[2] % 2 == 1
                             && (plan[4].params[2] / 4 % 2 == 1 <==> feat[1] / 8 % 2 == 1))
            && last.op == (if extended then 0x2042 else 0x200C)
            && |last.params| >= 2 && last.params[0] == 1 && last.params[1] == 0
            && (extended ==> last.params[2..] == [0, 0, 0, 0])
  {
    hide ScanUnits;
  }

  predicate LegacyScan(c: Command) {
    c.op == OP_LE_SET_SCAN_PARAM || c.op == OP_LE_SET_SCAN_ENABLE
  }

  predicate ExtendedScan(c: Command) {
    c.op == OP_LE_SET_EXT_SCAN_PARAM || c.op == OP_LE_SET_EXT_SCAN_ENABLE
  }

  predicate ScanEnable(c: Command) {
    c.op == OP_LE_SET_SCAN_ENABLE || c.op == OP_LE_SET_EXT_SCAN_ENABLE
  }

  /** At this place of the parameters: passive scanning, 4 <= window <= interval <= 0x4000. */
  predicate BlockAccepted(params: seq<byte>, at: nat)
    requires at + 5 <= |params|
  {
    && params[at] == 0
    && 4 <= LE16(params[at + 3], params[at + 4]) <= LE16(params[at + 1], params[at + 2]) <= 0x4000
  }

  /** Scan parameters a controller accepts, read back from the bytes: in the extended form one block per PHY bit. */
  predicate ParamsAccepted(c: Command) {
    if c.op == OP_LE_SET_SCAN_PARAM then |c.params| == 7 && BlockAccepted(c.params, 0)
    else if c.op == OP_LE_SET_EXT_SCAN_PARAM then
      && |c.params| >= 3 && c.params[2] < 8
      && var phys := set b | 0 <= b < 3 && Bit(c.params[2], b);
         phys != {} && |c.params| == 3 + 5 * |phys| && forall b | 0 <= b < |phys| :: BlockAccepted(c.params, 3 + 5 * b)
    else true
  }

  lemma InTheMiddle(before: seq<byte>, block: seq<byte>, after: seq<byte>, k: nat)
    requires k < |block|
    ensures (before + block + after)[|before| + k] == block[k]
  {
  }

  lemma BlockReadsBack(interval: nat, window: nat, before: seq<byte>, after: seq<byte>)
    requires 4 <= window <= interval <= 0x4000
    ensures BlockAccepted(before + PhyBlock(interval, window) + after, |before|)
  {
    hide Low, High, LE16;
    var block := PhyBlock(interval, window);
    InTheMiddle(before, block, after, 0);
    InTheMiddle(before, block, after, 1);
    InTheMiddle(before, block, after, 2);
    InTheMiddle(before, block, after, 3);
    InTheMiddle(before, block, after, 4);
    WordComesBack(interval);
    WordComesBack(window);
  }

  lemma ExtendedParamsAccepted(coded: bool, interval: nat, window: nat)
    requires 4 <= window <= interval <= 0x4000
    ensures ParamsAccepted(Command(OP_LE_SET_EXT_SCAN_PARAM, ExtendedParams(coded, interval, window)))
    ensures |ExtendedParams(coded, interval, window)| < 256
  {
    hide BlockAccepted;
    var block, params := PhyBlock(interval, window), ExtendedParams(coded, interval, window);
    var phys := set b | 0 <= b < 3 && Bit(params[2], b);
    if coded {
      assert phys == {0, 2};
      BlockReadsBack(interval, window, [0, 0, 0x05], block);
      BlockReadsBack(interval, window, [0, 0, 0x05] + block, []);
      assert [0, 0, 0x05] + block + block + [] == params;
    } else {
      assert phys == {0};
      BlockReadsBack(interval, window, [0, 0, 0x01], []);
      assert [0, 0, 0x01] + block + [] == params;
    }
  }

  lemma LegacyParamsAccepted(interval: nat, window: nat)
    requires 4 <= window <= interval <= 0x4000
    ensures ParamsAccepted(Command(OP_LE_SET_SCAN_PARAM, LegacyParams(interval, window)))
    ensures |LegacyParams(interval, window)| < 256
  {
    BlockReadsBack(interval, window, [], [0, 0]);
    assert [] + PhyBlock(interval, window) + [0, 0] == LegacyParams(interval, window);
  }

  lemma ScanStepsAccepted(feat: seq<byte>, interval: nat, window: nat)
    requires 4 <= window <= interval <= 0x4000
    ensures forall c | c in ScanSteps(feat, interval, window) :: c.Encodable() && ParamsAccepted(c)
  {
    ExtendedParamsAccepted(CodedSupported(feat), interval, window);
    LegacyParamsAccepted(interval, window);
  }

  /**
   What every initialisation keeps, wherever it stops: legacy and extended scan commands are never mixed, extended ones
   need feature bit 12 and legacy ones its absence, scan enable is written at most once and last, and scan parameters are
   ones a controller accepts.
   */
  lemma PlanIsSafe(cs: seq<Command>, feat: seq<byte>, scanInterval: int, scanWindow: int)
    requires cs <= Plan(feat, scanInterval, scanWindow)
    ensures forall c, d | c in cs && d in cs :: !(LegacyScan(c) && ExtendedScan(d))
    ensures forall c | c in cs && ExtendedScan(c) :: ExtendedSupported(feat)
    ensures forall c | c in cs && LegacyScan(c) :: !ExtendedSupported(feat)
    ensures forall k | 0 <= k < |cs| && ScanEnable(cs[k]) :: k == |cs| - 1 == |Plan(feat, scanInterval, scanWindow)| - 1
    ensures forall c | c in cs :: c.Encodable() && ParamsAccepted(c)
  {
    var interval := ScanUnits(Milliseconds(scanInterval), 0x10);
    var window := ScanUnits(Milliseconds(scanWindow), 0x10);
    ScanStepsAccepted(feat, interval, if window > interval then interval else window);
    forall k | 0 <= k < |cs|
      ensures cs[k] == Plan(feat, scanInterval, scanWindow)[k]
    {
    }
  }

  /** The commands of a plan are run in three parts, the last of which depends on what the second brought back. */
  lemma PlanInParts(feat: seq<byte>, scanInterval: int, scanWindow: int, interval: nat, window: nat, outgoing: seq<Write>,
                    incoming: seq<TimedRead>)
    requires interval == ScanUnits(Milliseconds(scanInterval), 0x10)
    requires var w := ScanUnits(Milliseconds(scanWindow), 0x10); window == if w > interval then interval else w
    ensures Plan(feat, scanInterval, scanWindow)
         == Preamble() + [Command(OP_LE_READ_FEATURES, [])] + ScanSteps(feat, interval, window)
    ensures var plan := Plan(feat, scanInterval, scanWindow);
            var (failure, left, unread) := Sequence(Preamble(), outgoing, incoming);
            var (outcome, left', unread') := Exchange(OP_LE_READ_FEATURES, left, unread);
            && (AllDone(plan, outgoing, incoming) <==> Sequence(plan, outgoing, incoming).0.None?)
            && Sequence(plan, outgoing, incoming) ==
               if failure.Some? then (failure, left, unread)
               else if outcome.Failed? then (Some(outcome.failure), left', unread')
               else Sequence(ScanSteps(feat, interval, window), left', unread')
  {
    hide Exchange, AllDone, ScanSteps;
    var plan, read := Plan(feat, scanInterval, scanWindow), [Command(OP_LE_READ_FEATURES, [])];
    var rest := ScanSteps(feat, interval, window);
    assert plan == Preamble() + (read + rest);
    var (failure, left, unread) := Sequence(Preamble(), outgoing, incoming);
    SequenceConcat(Preamble(), read + rest, outgoing, incoming);
    assert (read + rest)[1..] == rest;
    SucceedsExactly(plan, outgoing, incoming);
  }

  // ---------------------------------------------------------------------------------------------------------
  // The session.

  /** The socket: writes and reads to come, and all traffic so far. A controller with nothing more to say stays silent. */
  class Link {
    var outgoing: seq<Write>
    var incoming: seq<TimedRead>
    var log: seq<Io>

    constructor (outgoing: seq<Write>, incoming: seq<TimedRead>)
      ensures this.outgoing == outgoing && this.incoming == incoming && log == []
    {
      this.outgoing, this.incoming, this.log := outgoing, incoming, [];
    }

    /** hciCmd: a failed write sends nothing; otherwise the command is sent and its answer awaited for two seconds. */
    method HciCmd(c: Command) returns (outcome: Outcome)
      requires c.Encodable()
      modifies this
      ensures outgoing == if old(outgoing) == [] then [] else old(outgoing)[1..]
      ensures if old(outgoing) == [] || !old(outgoing)[0].ok then
                outcome == Failed(WriteError) && log == old(log) && incoming == old(incoming)
              else
                var w := Await(old(incoming), c.op, old(outgoing)[0].at + 2_000_000_000);
                && outcome == w.outcome && incoming == w.rest
                && log == old(log) + ([Sent(c.Encode())] + w.heard)
    {
      hide CmdResult, Command.Encode, Await, HeardThen;
      if outgoing == [] {
        return Failed(WriteError);
      }
      var write := outgoing[0];
      outgoing := outgoing[1..];
      if !write.ok {
        return Failed(WriteError);
      }
      log := log + [Sent(c.Encode())];
      var deadline := write.at + CMD_TIMEOUT;
      ghost var all, heard := Await(incoming, c.op, deadline), [];
      AwaitStarts(all);
      while incoming != [] && incoming[0].at < deadline
        invariant outgoing == old(outgoing)[1..]
        invariant log == old(log) + ([Sent(c.Encode())] + heard)
        invariant all == HeardThen(heard, Await(incoming, c.op, deadline))
        decreases incoming
      {
        AwaitNext(all, heard, incoming, c.op, deadline);
        var read := incoming[0].read;
        incoming := incoming[1..];
        if read.Broken? {
          return Failed(ReadError);
        }
        if read.Retry? {
          continue;
        }
        LoggedNext(old(log), Sent(c.Encode()), heard, Got(read.bytes));
        log, heard := log + [Got(read.bytes)], heard + [Got(read.bytes)];
        if |read.bytes| < 3 || read.bytes[0] != EVENT_PACKET {
          continue;
        }
        var answer := CmdResult(read.bytes[1..], c.op);
        if answer.Some? {
          return if answer.value.status != 0 then Failed(BadStatus(answer.value.status)) else Done(answer.value.ret);
        }
      }
      AwaitEnds(all, heard, incoming, c.op, deadline);
      return Failed(TimedOut);
    }

    /** A command on a settled link, in terms of what the traffic now shows. */
    method Issue(c: Command) returns (outcome: Outcome)
      requires c.Encodable() && Settled(log)
      modifies this
      ensures (outcome, outgoing, incoming) == Exchange(c.op, old(outgoing), old(incoming))
      ensures Orderly(log) && old(log) <= log
      ensures CommandsOf(log) == CommandsOf(old(log)) || CommandsOf(log) == CommandsOf(old(log)) + [c]
      ensures outcome.Done? ==>
                && Settled(log) && CommandsOf(log) == CommandsOf(old(log)) + [c]
                && log != [] && log[|log| - 1].Got? && AnswerIn(log[|log| - 1].packet, c.op) == Some(Answer(0, outcome.ret))
    {
      hide Orderly, Await, Decode, Command.Encode, AnswerIn, CommandsOf, Deciding;
      ghost var before, soon, at := log, incoming, if outgoing == [] then 0 else outgoing[0].at;
      outcome := HciCmd(c);
      if log != before {
        ghost var w := Await(soon, c.op, at + CMD_TIMEOUT);
        AwaitHears(soon, c.op, at + CMD_TIMEOUT);
        DecodeEncode(c);
        ExchangeOrderly(before, c.Encode(), w.heard, w.outcome);
        CommandsOfExchange(before, c, w.heard);
      }
    }

    /** Commands one after another; the first that fails ends the sequence. */
    method RunSteps(steps: seq<Command>) returns (failure: Option<Failure>)
      requires (forall c | c in steps :: c.Encodable()) && Settled(log)
      modifies this
      ensures (failure, outgoing, incoming) == Sequence(steps, old(outgoing), old(incoming))
      ensures Orderly(log) && old(log) <= log
      ensures CommandsOf(log) <= CommandsOf(old(log)) + steps
      ensures failure.None? ==> Settled(log) && CommandsOf(log) == CommandsOf(old(log)) + steps
    {
      hide Orderly, Decode, CommandsOf, AnswerIn, CompletedBefore, Exchange;
      assert steps[0..] == steps;
      for i := 0 to |steps|
        invariant Settled(log) && old(log) <= log
        invariant Sequence(steps, old(outgoing), old(incoming)) == Sequence(steps[i..], outgoing, incoming)
        invariant CommandsOf(log) == CommandsOf(old(log)) + steps[..i]
      {
        var outcome := Issue(steps[i]);
        assert steps == steps[..i] + [steps[i]] + steps[i + 1..];
        assert steps[..i + 1] == steps[..i] + [steps[i]] && steps[i..][1..] == steps[i + 1..];
        if outcome.Failed? {
          return Some(outcome.failure);
        }
      }
      assert steps[..|steps|] == steps;
      return None;
    }

    /**
     The initialisation of runHCISession. Whatever the controller does, the commands written are a prefix of the plan for
     the features it reported, each written only after the one before completed with status 0.
     */
    method Initialise(scanInterval: int, scanWindow: int) returns (failure: Option<Failure>, ghost feat: seq<byte>)
      requires log == []
      modifies this
      ensures (failure, outgoing, incoming) == Sequence(Plan(feat, scanInterval, scanWindow), old(outgoing), old(incoming))
      ensures failure.None? <==> AllDone(Plan(feat, scanInterval, scanWindow), old(outgoing), old(incoming))
      ensures Orderly(log) && CommandsOf(log) <= Plan(feat, scanInterval, scanWindow)
      ensures failure.None? ==> Settled(log) && CommandsOf(log) == Plan(feat, scanInterval, scanWindow)
      ensures |CommandsOf(log)| > 3 ==>
                exists k :: 0 <= k < |log| && log[k].Got? && AnswerIn(log[k].packet, OP_LE_READ_FEATURES) == Some(Answer(0, feat))
    {
      hide Sequence, Exchange, AllDone, Orderly, ScanSteps, ScanUnits, AnswerIn, Plan, CommandsOf, CompletedBefore;
      feat := [];
      var interval := ScanUnits(Milliseconds(scanInterval), 0x10);
      var window := ScanUnits(Milliseconds(scanWindow), 0x10);
      if window > interval {
        window := interval;
      }
      NothingSent();
      failure := RunSteps(Preamble());
      PlanInParts(feat, scanInterval, scanWindow, interval, window, old(outgoing), old(incoming));
      if failure.Some? {
        return;
      }
      var outcome := Issue(Command(OP_LE_READ_FEATURES, []));
      if outcome.Failed? {
        failure := Some(outcome.failure);
        return;
      }
      feat := outcome.ret;
      ghost var at, sofar := |log| - 1, log;
      ScanStepsAccepted(feat, interval, window);
      PlanInParts(feat, scanInterval, scanWindow, interval, window, old(outgoing), old(incoming));
      failure := RunSteps(ScanSteps(outcome.ret, interval, window));
      assert log[at] == sofar[at];
    }
  }
}
