/** The fragment table as a value: what each report does to it, and what a whole run of reports does. */
module Reassembly {
  import opened Bytes
  import opened AdvReports

  /** The most data one extended advertisement may have. */
  const MAX_DATA := 1650

  type Table = map<string, seq<byte>>

  function KeyOf<D>(r: AdvReport<D>): string {
    StreamKey(r.addr, r.sid)
  }

  /** f[key] on a Go map: the zero value, an empty slice, when the key is missing. */
  function Lookup(t: Table, key: string): seq<byte> {
    if key in t then t[key] else []
  }

  /** fragments.add: the table afterwards, and the whole data when the report completes it. */
  function Add(t: Table, r: Report): (Table, Option<seq<byte>>) {
    var key := KeyOf(r);
    if r.status == 0 then (t - {key}, Some(Lookup(t, key) + r.data))
    else if r.status == 1 then
      (if |Lookup(t, key)| + |r.data| <= MAX_DATA then t[key := Lookup(t, key) + r.data] else t, None)
    else (t - {key}, None)
  }

  /** The table after a run. */
  function After(t: Table, rs: seq<Report>): Table
    decreases rs
  {
    if rs == [] then t else After(Add(t, rs[0]).0, rs[1..])
  }

  /** The result of each add of a run. */
  function Results(t: Table, rs: seq<Report>): (out: seq<Option<seq<byte>>>)
    ensures |out| == |rs|
    decreases rs
  {
    if rs == [] then [] else [Add(t, rs[0]).1] + Results(Add(t, rs[0]).0, rs[1..])
  }

  lemma {:induction false} AfterConcat(t: Table, a: seq<Report>, b: seq<Report>)
    ensures After(t, a + b) == After(After(t, a), b)
    ensures Results(t, a + b) == Results(t, a) + Results(After(t, a), b)
    decreases a
  {
    if a == [] {
      assert a + b == b;
    } else {
      assert (a + b)[0] == a[0] && (a + b)[1..] == a[1..] + b;
      AfterConcat(Add(t, a[0]).0, a[1..], b);
    }
  }

  // ---------------------------------------------------------------------------------------------------------
  // Stream isolation.

  /** The reports of one stream. */
  function Stream(key: string, rs: seq<Report>): seq<Report> {
    if rs == [] then [] else (if KeyOf(rs[0]) == key then [rs[0]] else []) + Stream(key, rs[1..])
  }

  /** The results that went to one stream's reports. */
  function ResultsOf(key: string, rs: seq<Report>, out: seq<Option<seq<byte>>>): seq<Option<seq<byte>>>
    requires |out| == |rs|
  {
    if rs == [] then [] else (if KeyOf(rs[0]) == key then [out[0]] else []) + ResultsOf(key, rs[1..], out[1..])
  }

  ghost predicate SameEntry(a: Table, b: Table, key: string) {
    (key in a <==> key in b) && Lookup(a, key) == Lookup(b, key)
  }

  lemma OtherStream(key: string, t: Table, alone: Table, r: Report)
    requires SameEntry(t, alone, key) && KeyOf(r) != key
    ensures SameEntry(Add(t, r).0, alone, key)
  {
  }

  lemma SameStream(t: Table, alone: Table, r: Report)
    requires SameEntry(t, alone, KeyOf(r))
    ensures Add(t, r).1 == Add(alone, r).1 && SameEntry(Add(t, r).0, Add(alone, r).0, KeyOf(r))
  {
  }

  /**
   Interleaving does not matter: in any run, a stream's reports get the results they would get alone, and its entry ends
   up as it would alone.
   */
  lemma {:induction false} StreamIsolation(key: string, t: Table, alone: Table, rs: seq<Report>)
    requires SameEntry(t, alone, key)
    ensures ResultsOf(key, rs, Results(t, rs)) == Results(alone, Stream(key, rs))
    ensures SameEntry(After(t, rs), After(alone, Stream(key, rs)), key)
    decreases rs
  {
    hide KeyOf, Add, SameEntry;
    if rs != [] {
      var t' := Add(t, rs[0]).0;
      assert Results(t, rs)[1..] == Results(t', rs[1..]);
      if KeyOf(rs[0]) == key {
        assert Stream(key, rs)[0] == rs[0] && Stream(key, rs)[1..] == Stream(key, rs[1..]);
        SameStream(t, alone, rs[0]);
        StreamIsolation(key, t', Add(alone, rs[0]).0, rs[1..]);
      } else {
        assert Stream(key, rs) == Stream(key, rs[1..]);
        OtherStream(key, t, alone, rs[0]);
        StreamIsolation(key, t', alone, rs[1..]);
      }
    }
  }

  // ---------------------------------------------------------------------------------------------------------
  // The table as a function of history.

  function Concat(pieces: seq<seq<byte>>): seq<byte> {
    if pieces == [] then [] else Concat(pieces[..|pieces| - 1]) + pieces[|pieces| - 1]
  }

  /** The pieces that fit, in order: one that would pass the bound is left out, later ones may still fit. */
  function Accepted(pieces: seq<seq<byte>>): (s: seq<byte>)
    ensures |s| <= MAX_DATA
  {
    if pieces == [] then []
    else
      var so_far, last := Accepted(pieces[..|pieces| - 1]), pieces[|pieces| - 1];
      if |so_far| + |last| <= MAX_DATA then so_far + last else so_far
  }

  /** The data a stream has sent with status 1 since its last report with another status. */
  function Pending(key: string, rs: seq<Report>): seq<seq<byte>> {
    if rs == [] then []
    else
      var before, r := rs[..|rs| - 1], rs[|rs| - 1];
      if KeyOf(r) != key then Pending(key, before)
      else if r.status == 1 then Pending(key, before) + [r.data]
      else []
  }

  /** The status of a stream's last report. */
  function LastStatus(key: string, rs: seq<Report>): Option<byte> {
    if rs == [] then None
    else if KeyOf(rs[|rs| - 1]) == key then Some(rs[|rs| - 1].status)
    else LastStatus(key, rs[..|rs| - 1])
  }

  lemma AfterSnoc(t: Table, rs: seq<Report>)
    requires rs != []
    ensures After(t, rs) == Add(After(t, rs[..|rs| - 1]), rs[|rs| - 1]).0
    ensures Results(t, rs) == Results(t, rs[..|rs| - 1]) + [Add(After(t, rs[..|rs| - 1]), rs[|rs| - 1]).1]
  {
    var before, last := rs[..|rs| - 1], rs[|rs| - 1];
    assert rs == before + [last];
    AfterConcat(t, before, [last]);
  }

  ghost predicate ShortData(rs: seq<Report>) {
    forall r | r in rs :: |r.data| <= 255
  }

  /** After any run, a stream has an entry exactly when its last report had status 1, and the entry is what was accepted. */
  lemma {:induction false} TableIsHistory(rs: seq<Report>, key: string)
    requires ShortData(rs)
    ensures key in After(map[], rs) <==> LastStatus(key, rs) == Some(1)
    ensures Lookup(After(map[], rs), key) == Accepted(Pending(key, rs))
    ensures Pending(key, rs) != [] <==> LastStatus(key, rs) == Some(1)
  {
    if rs != [] {
      var before, r := rs[..|rs| - 1], rs[|rs| - 1];
      AfterSnoc(map[], rs);
      TableIsHistory(before, key);
      if KeyOf(r) == key && r.status == 1 {
        var pieces := Pending(key, rs);
        assert pieces[..|pieces| - 1] == Pending(key, before);
        assert r in rs;
        if Pending(key, before) == [] {
          assert Accepted([]) == [];
        }
      }
    }
  }

  /** What the run delivers for each report: with status 0 the accepted pieces and its own data, otherwise nothing. */
  lemma {:induction false} DeliveredIsHistory(rs: seq<Report>, i: nat)
    requires ShortData(rs) && i < |rs|
    ensures Results(map[], rs)[i] ==
            if rs[i].status == 0 then Some(Accepted(Pending(KeyOf(rs[i]), rs[..i])) + rs[i].data) else None
    ensures Results(map[], rs)[i].Some? ==> |Results(map[], rs)[i].value| <= 1905
  {
    var last := |rs| - 1;
    AfterSnoc(map[], rs);
    if i == last {
      TableIsHistory(rs[..i], KeyOf(rs[i]));
      assert rs[i] in rs;
    } else {
      DeliveredIsHistory(rs[..last], i);
      assert rs[..last][..i] == rs[..i];
    }
  }

  /** Reassembly has no hole exactly when the pieces before the final one total at most the bound. */
  lemma {:induction false} GapFreeExactly(pieces: seq<seq<byte>>)
    ensures Accepted(pieces) == Concat(pieces) <==> |Concat(pieces)| <= 1650
    ensures |Accepted(pieces)| <= |Concat(pieces)|
  {
    if pieces != [] {
      var before, last := pieces[..|pieces| - 1], pieces[|pieces| - 1];
      GapFreeExactly(before);
      if |Accepted(before)| < |Concat(before)| {
        assert Accepted(before) != Concat(before);
      }
    }
  }

  /**
   A legacy report is a final report of set 0: what it delivers starts with whatever extended data are pending for that set,
   and is its own data exactly when none are.
   */
  lemma LegacyTakesPending(t: Table, w: WireReport)
    requires w.Encodable() && w.LegacyWire?
    ensures var pending := Lookup(t, StreamKey(AddrText(w.addr), 0));
            && Add(t, w.Meaning()).1 == Some(pending + w.data)
            && (Add(t, w.Meaning()).1 == Some(w.data) <==> pending == [])
  {
    var pending := Lookup(t, StreamKey(AddrText(w.addr), 0));
    assert |pending + w.data| == |w.data| <==> pending == [];
    assert [] + w.data == w.data;
  }

  /** An extended report that announces more, followed by a legacy report of the same device. */
  lemma LegacyCompletesExtended(w: WireReport, more: WireReport)
    requires w.Encodable() && w.LegacyWire? && more.Encodable() && more.ExtendedWire?
    requires more.addr == w.addr && more.sid == 0 && more.Meaning().status == 1
    ensures Add(Add(map[], more.Meaning()).0, w.Meaning()).1 == Some(more.data + w.data)
  {
    assert [] + more.data == more.data;
  }
}
