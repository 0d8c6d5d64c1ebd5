/** What fits into the read buffer of a session, and an overflow within it that reaches the handler. */
module Overflow {
  import opened Bytes
  import opened AdStructures
  import R = AdvReports
  import opened Reassembly
  import opened Session
  import Transparency

  predicate InBuffer(turn: Turn) {
    turn.read.Packet? ==> |turn.read.bytes| <= READ_BUFFER
  }

  /** A read buffer of 260 bytes leaves room for 245 bytes of legacy data and for 231 of extended data. */
  lemma {:induction false} HeardInBuffer(turns: seq<Turn>)
    requires forall turn | turn in turns :: InBuffer(turn)
    ensures forall r | r in HeardAll(turns) :: |r.data| <= 245 && (r.status == 1 ==> |r.data| <= 231)
  {
    if turns != [] {
      var read := turns[0].read;
      assert turns[0] in turns;
      if IsEvent(read) && R.EventLayout(read.bytes[1..]).Some? {
        R.ParsedInBuffer(R.EventLayout(read.bytes[1..]).value, read.bytes[1..], 4, read.bytes[4], 0);
      }
      HeardInBuffer(turns[1..]);
    }
  }

  /** So what a session delivers for a report is at most 1650 + 245 bytes. */
  lemma DeliveredInBuffer(turns: seq<Turn>, i: nat)
    requires (forall turn | turn in turns :: InBuffer(turn)) && i < |HeardAll(turns)|
    ensures var full := Results(map[], HeardAll(turns))[i]; full.Some? ==> |full.value| <= 1895
  {
    var heard := HeardAll(turns);
    HeardInBuffer(turns);
    HeardInBounds(turns);
    DeliveredIsHistory(heard, i);
    assert heard[i] in heard;
  }

  // ---------------------------------------------------------------------------------------------------------
  // Sessions whose reads all come at one time.

  predicate Punctual(turn: Turn, now: int) {
    !turn.cancelled && turn.read.Packet? && turn.heardAt == now && turn.checkedAt == now
  }

  lemma {:induction false} PunctualRuns(s: State, turns: seq<Turn>, now: int)
    requires s.ending.Running? && s.last == now && forall turn | turn in turns :: Punctual(turn, now)
    ensures Run(s, turns).ending.Running?
    decreases turns
  {
    hide Step, HandleAll, Heard;
    if turns != [] {
      assert turns[0] in turns;
      StepReads(s, turns[0]);
      PunctualRuns(Step(s, turns[0]), turns[1..], now);
    }
  }

  lemma {:induction false} HeardConcat(a: seq<Turn>, b: seq<Turn>)
    ensures HeardAll(a + b) == HeardAll(a) + HeardAll(b)
  {
    hide Heard;
    if a == [] {
      assert a + b == b;
    } else {
      assert (a + b)[0] == a[0] && (a + b)[1..] == a[1..] + b;
      HeardConcat(a[1..], b);
      assert Heard(a[0].read) + (HeardAll(a[1..]) + HeardAll(b)) == Heard(a[0].read) + HeardAll(a[1..]) + HeardAll(b);
    }
  }

  // ---------------------------------------------------------------------------------------------------------
  // Pieces of one advertisement, each in an event of its own.

  function Zeros(n: nat): (s: seq<byte>)
    ensures |s| == n
  {
    seq(n, _ => 0)
  }

  /** An extended report of set 0; bit 5 of the event type means that more follows. */
  function Wire(addr: seq<byte>, data: seq<byte>, more: bool): (w: R.WireReport)
    requires |addr| == 6 && |data| <= 231
    ensures w.Encodable() && w.Layout() == R.Extended
    ensures w.Meaning() == R.AdvReport(AddrText(addr), 0, data, 0, if more then 1 else 0)
  {
    R.ExtendedWire(if more then 32 else 0, 0, addr, 1, 0, 0, 0, 0, 0, 0, Zeros(6), data)
  }

  function Packed(addr: seq<byte>, data: seq<byte>, more: bool, now: int): Turn
    requires |addr| == 6 && |data| <= 231
  {
    Turn(false, Packet([EVENT_PACKET] + R.EncodeEvent(R.Extended, 0, [Wire(addr, data, more)])), now, now)
  }

  lemma HeardPacked(addr: seq<byte>, data: seq<byte>, more: bool, now: int)
    requires |addr| == 6 && |data| <= 231
    ensures var turn := Packed(addr, data, more, now);
            && Punctual(turn, now) && InBuffer(turn)
            && Heard(turn.read) == [Wire(addr, data, more).Meaning()]
  {
    hide R.Parse, R.WireReport.Meaning;
    var ws := [Wire(addr, data, more)];
    var event := R.EncodeEvent(R.Extended, 0, ws);
    var bytes := [EVENT_PACKET] + event;
    R.ParseWholeEvent(R.Extended, 0, ws, []);
    assert event + [] == event && bytes[1..] == event;
    assert R.Encodings(ws) == [ws[0].Encode()] && R.Join([ws[0].Encode()]) == ws[0].Encode() by {
      assert [ws[0].Encode()][1..] == [] && ws[0].Encode() + [] == ws[0].Encode();
    }
  }

  function PieceTurns(addr: seq<byte>, pieces: seq<seq<byte>>, now: int): seq<Turn>
    requires |addr| == 6 && forall p | p in pieces :: |p| <= 231
  {
    if pieces == [] then [] else [Packed(addr, pieces[0], true, now)] + PieceTurns(addr, pieces[1..], now)
  }

  /** They are heard as they are, none of them makes a call, and the table holds what was accepted of them. */
  lemma {:induction false} HeardPieces(addr: seq<byte>, pieces: seq<seq<byte>>, now: int)
    requires |addr| == 6 && forall p | p in pieces :: |p| <= 231
    ensures var turns := PieceTurns(addr, pieces, now);
            && (forall turn | turn in turns :: Punctual(turn, now) && InBuffer(turn))
            && |HeardAll(turns)| == |pieces|
            && forall i | 0 <= i < |pieces| :: HeardAll(turns)[i] == R.AdvReport(AddrText(addr), 0, pieces[i], 0, 1)
    decreases pieces
  {
    hide Heard, Packed, HexPairs;
    if pieces != [] {
      assert pieces[0] in pieces && forall p | p in pieces[1..] :: p in pieces;
      HeardPacked(addr, pieces[0], true, now);
      HeardPieces(addr, pieces[1..], now);
      var turns, rest := PieceTurns(addr, pieces, now), PieceTurns(addr, pieces[1..], now);
      assert turns[0] == Packed(addr, pieces[0], true, now) && turns[1..] == rest;
      assert HeardAll(turns) == Heard(turns[0].read) + HeardAll(rest);
    }
  }

  /** Reports that announce more make no call. */
  lemma {:induction false} MoreMakesNoCall(t: Table, rs: seq<R.Report>)
    requires forall r | r in rs :: r.status == 1
    ensures HandleAll(t, rs).1 == []
    decreases rs
  {
    if rs != [] {
      assert rs[0] in rs;
      MoreMakesNoCall(Handle(t, rs[0]).0, rs[1..]);
    }
  }

  lemma {:induction false} PendingPieces(key: string, rs: seq<R.Report>)
    requires forall r | r in rs :: KeyOf(r) == key && r.status == 1
    ensures Pending(key, rs) == Transparency.Datas(rs)
  {
    hide KeyOf;
    if rs != [] {
      var before, r := rs[..|rs| - 1], rs[|rs| - 1];
      assert r in rs;
      PendingPieces(key, before);
      assert Transparency.Datas(rs) == Transparency.Datas(before) + [r.data];
    }
  }

  /** Pieces and a final report, all within the buffer: the session hands over the payload found in the accepted data. */
  lemma PiecesHandled(addr: seq<byte>, pieces: seq<seq<byte>>, last: seq<byte>, now: int)
    requires |addr| == 6 && |last| <= 231 && forall p | p in pieces :: |p| <= 231
    ensures var turns := PieceTurns(addr, pieces, now) + [Packed(addr, last, false, now)];
            && (forall turn | turn in turns :: InBuffer(turn))
            && Run(Start(now), turns).ending.Running?
            && Run(Start(now), turns).calls == CallFor(AddrText(addr), 0, Accepted(pieces) + last)
  {
    hide Heard, Packed, HexPairs, Attended, Run, CallFor, StreamKey, Accepted, Pending, PieceTurns;
    var before, final := PieceTurns(addr, pieces, now), Packed(addr, last, false, now);
    var turns := before + [final];
    var key := StreamKey(AddrText(addr), 0);
    HeardPieces(addr, pieces, now);
    HeardPacked(addr, last, false, now);
    HeardConcat(before, [final]);
    HeardSingle(final);
    PunctualRuns(Start(now), turns, now);
    AttendedFirst(Start(now), turns);
    RunHandlesAll(Start(now), turns);
    var rs, r := HeardAll(before), Wire(addr, last, false).Meaning();
    MoreMakesNoCall(map[], rs);
    HandleConcat(map[], rs, [r]);
    HandledTable(map[], rs);
    HeardInBounds(before);
    TableIsHistory(rs, key);
    PendingPieces(key, rs);
    assert Transparency.Datas(rs) == pieces;
    HandleCons(After(map[], rs), r, []);
    HandleNone(Handle(After(map[], rs), r).0);
    assert [r] + [] == [r];
    CallsEnd(CallFor(AddrText(addr), 0, Accepted(pieces) + last));
  }

  lemma HeardSingle(turn: Turn)
    ensures HeardAll([turn]) == Heard(turn.read)
  {
    assert [turn][1..] == [];
  }

  lemma CallsEnd(calls: seq<Call>)
    ensures [] + ([] + (calls + [])) == calls
  {
  }

  // ---------------------------------------------------------------------------------------------------------
  // The overflow.

  function Repeat<T>(x: T, n: nat): (s: seq<T>)
    ensures |s| == n && forall y | y in s :: y == x
  {
    if n == 0 then [] else [x] + Repeat(x, n - 1)
  }

  /** A structure that the search passes over. */
  function Filler(n: nat): (s: AdStructure)
    requires n <= 254
    ensures s.Encodable() && !s.Names(RUUVI) && |s.Encode()| == n + 2
  {
    AdStructure(0, Zeros(n))
  }

  /** A Ruuvi payload of two bytes. */
  function Ruuvi(a: byte, b: byte): (s: AdStructure)
    ensures s.Encodable() && s.Names(RUUVI) && s.Encode() == [5, MANUFACTURER, 0x99, 0x04, a, b]
  {
    AdStructure(MANUFACTURER, [0x99, 0x04, a, b])
  }

  /** Six fillers of one piece each; the seventh piece ends in the middle of the payload. */
  function Seven(a: byte): (pieces: seq<seq<byte>>)
    ensures |pieces| == 7 && forall p | p in pieces :: |p| == 229
  {
    Repeat(Filler(227).Encode(), 6) + [Filler(222).Encode() + [5, MANUFACTURER, 0x99, 0x04, a]]
  }

  function Sent(a: byte, b: byte): (ss: seq<AdStructure>)
    ensures forall s | s in ss :: s.Encodable()
  {
    Repeat(Filler(227), 6) + [Filler(222), Ruuvi(a, b)]
  }

  lemma {:induction false} ConcatFront(piece: seq<byte>, rest: seq<seq<byte>>)
    ensures Concat([piece] + rest) == piece + Concat(rest)
  {
    if rest == [] {
      assert [piece][..0] == [] && Concat([]) == [];
    } else {
      var n := |rest| - 1;
      assert ([piece] + rest)[..n + 1] == [piece] + rest[..n];
      ConcatFront(piece, rest[..n]);
      assert piece + Concat(rest[..n]) + rest[n] == piece + (Concat(rest[..n]) + rest[n]);
    }
  }

  lemma EncodeCons(s: AdStructure, rest: seq<AdStructure>)
    requires s.Encodable() && forall r | r in rest :: r.Encodable()
    ensures EncodeAll([s] + rest) == s.Encode() + EncodeAll(rest)
    ensures !s.Names(RUUVI) ==> FirstOf([s] + rest, RUUVI) == FirstOf(rest, RUUVI)
  {
    assert ([s] + rest)[1..] == rest;
  }

  lemma RepeatNext<T>(x: T, n: nat, tail: seq<T>)
    ensures Repeat(x, n + 1) + tail == [x] + (Repeat(x, n) + tail)
  {
  }

  lemma Associative<T>(a: seq<T>, b: seq<T>, c: seq<T>)
    ensures a + (b + c) == a + b + c
  {
  }

  lemma {:induction false} FillersEncoded(s: AdStructure, n: nat, tail: seq<AdStructure>, last: seq<byte>, x: seq<byte>)
    requires s.Encodable() && !s.Names(RUUVI) && (forall r | r in tail :: r.Encodable()) && EncodeAll(tail) == last + x
    ensures forall r | r in Repeat(s, n) + tail :: r.Encodable()
    ensures EncodeAll(Repeat(s, n) + tail) == Concat(Repeat(s.Encode(), n) + [last]) + x
    ensures FirstOf(Repeat(s, n) + tail, RUUVI) == FirstOf(tail, RUUVI)
    decreases n
  {
    hide AdStructure.Encode, AdStructure.Names, Concat, EncodeAll, FirstOf, Repeat;
    if n == 0 {
      NoFillers(s, tail, last);
    } else {
      var rest, pieces := Repeat(s, n - 1) + tail, Repeat(s.Encode(), n - 1) + [last];
      FillersEncoded(s, n - 1, tail, last, x);
      RepeatNext(s, n - 1, tail);
      EncodeCons(s, rest);
      RepeatNext(s.Encode(), n - 1, [last]);
      ConcatFront(s.Encode(), pieces);
      Associative(s.Encode(), Concat(pieces), x);
    }
  }

  lemma NoFillers(s: AdStructure, tail: seq<AdStructure>, last: seq<byte>)
    requires s.Encodable()
    ensures Repeat(s, 0) + tail == tail && Concat(Repeat(s.Encode(), 0) + [last]) == last
  {
    assert [] + [last] == [last];
    ConcatOne(last);
  }

  lemma ConcatOne(piece: seq<byte>)
    ensures Concat([piece]) == piece
  {
    assert [piece][..0] == [];
  }

  /** The seven pieces and one byte are the structures sent, which hold the payload. */
  lemma SentInPieces(a: byte, b: byte)
    ensures EncodeAll(Sent(a, b)) == Concat(Seven(a)) + [b]
    ensures FirstOf(Sent(a, b), RUUVI) == Some([a, b])
  {
    var filler, ruuvi := Filler(222), Ruuvi(a, b);
    var tail, last := [filler, ruuvi], filler.Encode() + [5, MANUFACTURER, 0x99, 0x04, a];
    hide Filler, AdStructure.Encode;
    assert tail[1..] == [ruuvi] && [ruuvi][1..] == [];
    assert EncodeAll([ruuvi]) == ruuvi.Encode() + [] == [5, MANUFACTURER, 0x99, 0x04, a] + [b];
    assert EncodeAll(tail) == filler.Encode() + ([5, MANUFACTURER, 0x99, 0x04, a] + [b]) == last + [b];
    FillersEncoded(Filler(227), 6, tail, last, [b]);
    RuuviFound(filler, a, b);
  }

  lemma RuuviFound(filler: AdStructure, a: byte, b: byte)
    requires !filler.Names(RUUVI)
    ensures FirstOf([filler, Ruuvi(a, b)], RUUVI) == Some([a, b])
  {
    assert [filler, Ruuvi(a, b)][1..] == [Ruuvi(a, b)];
    assert [0x99, 0x04, a, b][2..] == [a, b];
  }

  lemma {:induction false} ConcatLength(pieces: seq<seq<byte>>)
    requires forall p | p in pieces :: |p| == 229
    ensures |Concat(pieces)| == |pieces| * 229
  {
    if pieces != [] {
      assert pieces[|pieces| - 1] in pieces;
      ConcatLength(pieces[..|pieces| - 1]);
    }
  }

  /** Seven pieces fit, an eighth does not and is left out. */
  lemma EighthSkipped(seven: seq<seq<byte>>, eighth: seq<byte>)
    requires |seven| == 7 && |eighth| == 229 && forall p | p in seven :: |p| == 229
    ensures Accepted(seven + [eighth]) == Concat(seven) && Concat(seven + [eighth]) == Concat(seven) + eighth
  {
    ConcatLength(seven);
    GapFreeExactly(seven);
    assert (seven + [eighth])[..7] == seven;
  }

  /** Eight pieces of 229 bytes that announce more. */
  function Pieces(a: byte, e: byte): (pieces: seq<seq<byte>>)
    ensures forall p | p in pieces :: |p| == 229
  {
    Seven(a) + [[e] + Zeros(228)]
  }

  /**
   A session all of whose packets fit into the read buffer, fed eight pieces and a final byte of one advertisement: the
   eighth piece is skipped, and the handler is given a payload that ends with the final byte instead of the byte that was
   sent in its place.
   */
  lemma HoleReachesHandler(addr: seq<byte>, now: int, a: byte, e: byte)
    requires |addr| == 6 && e != 0
    ensures var turns := PieceTurns(addr, Pieces(a, e), now) + [Packed(addr, [0], false, now)];
            && (forall turn | turn in turns :: InBuffer(turn))
            && Run(Start(now), turns).calls == [Call(AddrText(addr), 0, [a, 0])]
    ensures ManufacturerData(Concat(Pieces(a, e)) + [0], RUUVI) == Some([a, e]) != Some([a, 0])
  {
    hide PieceTurns, Packed, Run, ManufacturerData, Seven, Sent, FirstOf, EncodeAll, HexPairs;
    PiecesHandled(addr, Pieces(a, e), [0], now);
    EighthSkipped(Seven(a), [e] + Zeros(228));
    SentInPieces(a, 0);
    SentInPieces(a, e);
    PaddedSearch(Sent(a, 0), [], RUUVI);
    PaddedSearch(Sent(a, e), Zeros(229), RUUVI);
    var seven := Concat(Seven(a));
    assert EncodeAll(Sent(a, 0)) + [] == seven + [0];
    assert EncodeAll(Sent(a, e)) + Zeros(229) == seven + [e] + Zeros(229) == seven + ([e] + Zeros(228)) + [0];
  }
}
