/** The AD structure walk that finds a company's manufacturer data. */
module AdStructures {
  import opened Bytes
  import opened GoSlices

  const MANUFACTURER: byte := 0xFF

  /** One AD structure: length byte 1+|body|, type byte, body. */
  datatype AdStructure = AdStructure(kind: byte, body: seq<byte>) {
    predicate Encodable() {
      |body| <= 254
    }

    function Encode(): seq<byte>
      requires Encodable()
    {
      [(1 + |body|) as byte, kind] + body
    }

    predicate Names(company: nat) {
      kind == MANUFACTURER && |body| >= 2 && LE16(body[0], body[1]) == company
    }
  }

  /** Nothing can be decoded at i: the end, an early terminator, or a length reaching past the end. */
  predicate Stops(ad: seq<byte>, i: nat)
    requires i <= |ad|
  {
    i == |ad| || ad[i] == 0 || i + 1 + ad[i] as nat > |ad|
  }

  /** The structure at i and the place where the next one starts. */
  function Head(ad: seq<byte>, i: nat): (r: (AdStructure, nat))
    requires i <= |ad| && !Stops(ad, i)
    ensures i < r.1 <= |ad| && r.0.Encodable()
  {
    var next := i + 1 + ad[i] as nat;
    (AdStructure(ad[i + 1], ad[i + 2..next]), next)
  }

  /** The greedy decoding of a byte string into AD structures, from i on. */
  function StructuresAt(ad: seq<byte>, i: nat): seq<AdStructure>
    requires i <= |ad|
    decreases |ad| - i
  {
    if Stops(ad, i) then []
    else var (first, next) := Head(ad, i); [first] + StructuresAt(ad, next)
  }

  function Structures(ad: seq<byte>): seq<AdStructure> {
    StructuresAt(ad, 0)
  }

  function EncodeAll(ss: seq<AdStructure>): seq<byte>
    requires forall s | s in ss :: s.Encodable()
  {
    if ss == [] then [] else ss[0].Encode() + EncodeAll(ss[1..])
  }

  /** The data after the company id in the first structure naming the company. */
  function FirstOf(ss: seq<AdStructure>, company: nat): Option<seq<byte>> {
    if ss == [] then None
    else if ss[0].Names(company) then Some(ss[0].body[2..])
    else FirstOf(ss[1..], company)
  }

  function ManufacturerData(ad: seq<byte>, company: nat): Option<seq<byte>> {
    FirstOf(Structures(ad), company)
  }

  /** One step of the search: the structure at i matches, or it is passed over. */
  lemma SearchStep(ad: seq<byte>, i: nat, company: nat)
    requires i <= |ad| && !Stops(ad, i)
    ensures var (first, next) := Head(ad, i);
            && (first.Names(company) <==>
                ad[i + 1] == MANUFACTURER && ad[i] >= 3 && LE16(ad[i + 2], ad[i + 3]) == company)
            && FirstOf(StructuresAt(ad, i), company) ==
               if first.Names(company) then Some(ad[i + 4..next]) else FirstOf(StructuresAt(ad, next), company)
  {
    var (first, next) := Head(ad, i);
    assert StructuresAt(ad, i)[1..] == StructuresAt(ad, next);
    if first.Names(company) {
      assert first.body[2..] == ad[i + 4..next];
    }
  }

  lemma SearchStops(ad: seq<byte>, i: nat, company: nat)
    requires i <= |ad| && Stops(ad, i)
    ensures FirstOf(StructuresAt(ad, i), company) == None
  {
  }

  /** manufacturerData: the loop over a slice finds what the greedy decoding promises, as a window on the same array. */
  method FindManufacturerData(ad: Slice, company: nat) returns (r: Option<Slice>)
    requires ad.Valid()
    ensures r.Some? ==> r.value.Valid() && r.value.base == ad.base
    ensures ManufacturerData(ad.Bytes(), company) == if r.Some? then Some(r.value.Bytes()) else None
  {
    hide FirstOf, StructuresAt, AdStructure.Names, Slice.At, Slice.Sub, Slice.Bytes, LE16;
    var i := 0;
    ghost var bytes := ad.Bytes();
    ghost var wanted := ManufacturerData(bytes, company);
    while i < ad.len
      invariant 0 <= i <= ad.len
      invariant wanted == FirstOf(StructuresAt(bytes, i), company)
      decreases ad.len - i
    {
      var l := ad.At(i) as nat;
      assert bytes[i] as nat == l;
      if l == 0 || i + 1 + l > ad.len {
        SearchStops(bytes, i, company);
        return None;
      }
      assert !Stops(bytes, i) && Head(bytes, i).1 == i + 1 + l;
      SearchStep(bytes, i, company);
      assert bytes[i + 1] == ad.At(i + 1);
      assert l >= 3 ==> bytes[i + 2] == ad.At(i + 2) && bytes[i + 3] == ad.At(i + 3);
      if ad.At(i + 1) == MANUFACTURER && l >= 3 && LE16(ad.At(i + 2), ad.At(i + 3)) == company {
        return Some(ad.Sub(i + 4, i + 1 + l));
      }
      i := i + 1 + l;
    }
    SearchStops(bytes, i, company);
    return None;
  }

  /** FirstOf is the first match: nothing before it names the company. */
  lemma {:induction false} FirstOfIsFirst(ss: seq<AdStructure>, company: nat)
    ensures FirstOf(ss, company).None? <==> forall i | 0 <= i < |ss| :: !ss[i].Names(company)
    ensures FirstOf(ss, company).Some? ==>
              exists i | 0 <= i < |ss| :: ss[i].Names(company) && FirstOf(ss, company) == Some(ss[i].body[2..])
                                          && forall j | 0 <= j < i :: !ss[j].Names(company)
  {
    if ss != [] && !ss[0].Names(company) {
      FirstOfIsFirst(ss[1..], company);
      if FirstOf(ss[1..], company).Some? {
        var i :| 0 <= i < |ss[1..]| && ss[1..][i].Names(company) && FirstOf(ss[1..], company) == Some(ss[1..][i].body[2..])
                 && forall j | 0 <= j < i :: !ss[1..][j].Names(company);
        assert ss[i + 1].Names(company);
        assert forall j | 0 < j < i + 1 :: ss[j] == ss[1..][j - 1];
      } else {
        assert forall i | 0 < i < |ss| :: ss[i] == ss[1..][i - 1];
      }
    }
  }

  lemma HeadOfEncoding(ad: seq<byte>, i: nat, s: AdStructure, rest: seq<byte>, end: nat)
    requires s.Encodable() && i <= end <= |ad| && ad[i..end] == s.Encode() + rest
    ensures !Stops(ad, i) && Head(ad, i) == (s, i + 2 + |s.body|)
    ensures i + 2 + |s.body| <= end && ad[i + 2 + |s.body|..end] == rest
  {
    var encoded := ad[i..end];
    assert |encoded| == 2 + |s.body| + |rest|;
    assert forall k | 0 <= k < |encoded| :: ad[i + k] == encoded[k];
    assert ad[i + 2..i + 2 + |s.body|] == encoded[2..2 + |s.body|] == s.body;
    assert ad[i + 2 + |s.body|..end] == encoded[2 + |s.body|..] == rest;
  }

  /** Decoding recovers any encodable list, whatever follows it that cannot be decoded (zero padding, a cut structure). */
  lemma {:induction false} DecodeEncode(ad: seq<byte>, i: nat, ss: seq<AdStructure>, end: nat)
    requires forall s | s in ss :: s.Encodable()
    requires i <= end <= |ad| && ad[i..end] == EncodeAll(ss) && Stops(ad, end)
    ensures StructuresAt(ad, i) == ss
    decreases ss
  {
    hide Stops, Head, AdStructure.Encode;
    if ss != [] {
      HeadOfEncoding(ad, i, ss[0], EncodeAll(ss[1..]), end);
      DecodeEncode(ad, i + 2 + |ss[0].body|, ss[1..], end);
    }
  }

  /** On encoded structures followed by zero padding, the search answers the first structure naming the company. */
  lemma PaddedSearch(ss: seq<AdStructure>, padding: seq<byte>, company: nat)
    requires forall s | s in ss :: s.Encodable()
    requires forall z | z in padding :: z == 0
    ensures ManufacturerData(EncodeAll(ss) + padding, company) == FirstOf(ss, company)
  {
    var ad := EncodeAll(ss) + padding;
    var end := |EncodeAll(ss)|;
    assert ad[0..end] == EncodeAll(ss);
    assert end < |ad| ==> ad[end] == padding[0] && padding[0] in padding;
    DecodeEncode(ad, 0, ss, end);
  }

  lemma HeadReads(ad: seq<byte>, i: nat)
    requires i <= |ad| && !Stops(ad, i)
    ensures ad[i..Head(ad, i).1] == Head(ad, i).0.Encode()
  {
  }

  /** The decoding reads a prefix of the bytes exactly as they stand and stops only where it must. */
  lemma {:induction false} EncodeDecode(ad: seq<byte>, i: nat) returns (end: nat)
    requires i <= |ad|
    ensures forall s | s in StructuresAt(ad, i) :: s.Encodable()
    ensures i <= end <= |ad| && Stops(ad, end)
    ensures ad[i..end] == EncodeAll(StructuresAt(ad, i))
    decreases |ad| - i
  {
    hide Stops, Head, AdStructure.Encode;
    if Stops(ad, i) {
      end := i;
    } else {
      var (first, next) := Head(ad, i);
      end := EncodeDecode(ad, next);
      HeadReads(ad, i);
      assert StructuresAt(ad, i)[1..] == StructuresAt(ad, next);
      assert ad[i..end] == ad[i..next] + ad[next..end];
    }
  }
}
