/** Go byte slices: a window on a shared backing array, and append with its two behaviours. */
module GoSlices {
  import opened Bytes

  /** base is the backing array; the capacity is base.Length - off. */
  datatype Slice = Slice(base: array<byte>, off: nat, len: nat) {
    ghost predicate Valid() {
      off + len <= base.Length
    }

    function Bytes(): (s: seq<byte>)
      requires Valid()
      reads base
      ensures |s| == len
    {
      base[off..off + len]
    }

    function At(i: nat): (b: byte)
      requires Valid() && i < len
      reads base
      ensures b == Bytes()[i]
    {
      base[off + i]
    }

    /** s[lo:hi] */
    function Sub(lo: nat, hi: nat): (s: Slice)
      requires Valid() && lo <= hi <= len
      reads base
      ensures s.Valid() && s.base == base
      ensures s.Bytes() == Bytes()[lo..hi]
    {
      assert forall k | lo <= k < hi :: Bytes()[lo..hi][k - lo] == Bytes()[k] == base[off + k];
      Slice(base, off + lo, hi - lo)
    }
  }

  /** append([]byte(nil), src...), with whatever spare capacity the runtime chooses. */
  method Clone(src: Slice) returns (r: Slice)
    requires src.Valid()
    ensures r.Valid() && fresh(r.base) && r.Bytes() == src.Bytes()
  {
    var spare: nat :| true;
    var a := new byte[src.len + spare](_ => 0);
    forall k | 0 <= k < src.len {
      a[k] := src.At(k);
    }
    r := Slice(a, 0, src.len);
  }

  /** append(dst, src...): writes behind dst when its capacity allows, otherwise moves it to a new array. */
  method Append(dst: Slice, src: Slice) returns (r: Slice)
    requires dst.Valid() && src.Valid() && dst.base != src.base
    modifies dst.base
    ensures r.Valid() && if dst.off + dst.len + src.len <= dst.base.Length then r.base == dst.base else fresh(r.base)
    ensures r.Bytes() == old(dst.Bytes()) + old(src.Bytes())
  {
    if dst.off + dst.len + src.len <= dst.base.Length {
      forall k | 0 <= k < src.len {
        dst.base[dst.off + dst.len + k] := src.At(k);
      }
      r := Slice(dst.base, dst.off, dst.len + src.len);
    } else {
      var spare: nat :| true;
      var a := new byte[dst.len + src.len + spare](_ => 0);
      forall k | 0 <= k < dst.len + src.len {
        a[k] := if k < dst.len then dst.At(k) else src.At(k - dst.len);
      }
      r := Slice(a, 0, dst.len + src.len);
    }
  }
}
