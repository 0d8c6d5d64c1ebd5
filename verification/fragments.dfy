/** The fragment table over Go slices: entries own their arrays, so nothing that is read later can change them. */
module Fragments {
  import opened Bytes
  import opened GoSlices
  import opened AdvReports
  import opened ReportParser
  import Reassembly

  class FragmentTable {
    var table: map<string, Slice>

    ghost function Arrays(): set<array<byte>>
      reads this
    {
      set key | key in table :: table[key].base
    }

    /** Every entry is a well-formed slice on an array no other entry uses. */
    ghost predicate Valid()
      reads this
    {
      && (forall key | key in table :: table[key].Valid())
      && (forall j, k | j in table && k in table && j != k :: table[j].base != table[k].base)
    }

    ghost function Contents(): Reassembly.Table
      requires Valid()
      reads this, Arrays()
    {
      map key | key in table :: table[key].Bytes()
    }

    lemma Entry(key: string)
      requires Valid()
      ensures key in Contents() <==> key in table
      ensures key in table ==> table[key].Valid() && Contents()[key] == table[key].Bytes() && table[key].base in Arrays()
    {
    }

    constructor ()
      ensures Valid() && Contents() == map[] && Arrays() == {}
    {
      table := map[];
    }

    /** delete(f, key) */
    method Drop(key: string)
      requires Valid()
      modifies this
      ensures Valid() && Arrays() <= old(Arrays())
      ensures Contents() == old(Contents()) - {key}
    {
      table := table - {key};
    }

    /** Replacing an entry by a slice on its own array or on an array nobody uses. */
    method Replace(key: string, s: Slice)
      requires Valid() && s.Valid()
      requires forall k | k in table && k != key :: table[k].base != s.base
      modifies this
      ensures Valid() && Arrays() <= old(Arrays()) + {s.base}
      ensures Contents() == old(Contents())[key := s.Bytes()]
    {
      hide Slice.Bytes;
      table := table[key := s];
    }

    /** f[key] = append(f[key], data...) on a key the table has. */
    method Extend(key: string, data: Slice)
      requires Valid() && key in table && data.Valid() && data.base !in Arrays()
      modifies this, table[key].base
      ensures Valid() && forall a | a in Arrays() :: a in old(Arrays()) || fresh(a)
      ensures Contents() == old(Contents())[key := old(Contents())[key] + old(data.Bytes())]
    {
      hide Slice.Bytes;
      ghost var before := Contents();
      var s := Append(table[key], data);
      assert forall k | k in table && k != key :: table[k].base != s.base && Contents()[k] == before[k];
      assert Contents()[key := s.Bytes()] == before[key := s.Bytes()];
      Replace(key, s);
    }

    /** f[key] = append(f[key], data...) on a missing key: the data are copied to an array of their own. */
    method Open(key: string, data: Slice)
      requires Valid() && key !in table && data.Valid()
      modifies this
      ensures Valid() && forall a | a in Arrays() :: a in old(Arrays()) || fresh(a)
      ensures Contents() == old(Contents())[key := data.Bytes()]
    {
      var s := Clone(data);
      Replace(key, s);
    }

    /** delete(f, key) and append(prev, data...): the entry leaves the table with the data behind it. */
    method Complete(key: string, data: Slice) returns (whole: Slice)
      requires Valid() && key in table && data.Valid() && data.base !in Arrays()
      modifies this, table[key].base
      ensures Valid() && Arrays() <= old(Arrays())
      ensures Contents() == old(Contents()) - {key}
      ensures whole.Valid() && whole.base !in Arrays() && (whole.base in old(Arrays()) || fresh(whole.base))
      ensures whole.Bytes() == old(Contents())[key] + old(data.Bytes())
    {
      var prev := table[key];
      table := table - {key};
      whole := Append(prev, data);
    }

    /**
     fragments.add: the table and the delivered data are what Reassembly.Add says, the report's own array is neither
     changed nor kept, and a delivered slice shares no array with the table.
     */
    method Add(r: AdvReport<Slice>) returns (full: Option<Slice>)
      requires Valid() && r.data.Valid() && r.data.base !in Arrays()
      modifies this, Arrays()
      ensures Valid() && forall a | a in Arrays() :: a in old(Arrays()) || fresh(a)
      ensures full.Some? ==>
                && full.value.Valid() && full.value.base !in Arrays()
                && (full.value.base == r.data.base || full.value.base in old(Arrays()) || fresh(full.value.base))
      ensures (Contents(), if full.Some? then Some(full.value.Bytes()) else None)
           == Reassembly.Add(old(Contents()), old(Snapshot(r)))
    {
      hide Contents, Valid, Slice.Bytes;
      ghost var before, report := Contents(), Snapshot(r);
      var key := Reassembly.KeyOf(r);
      Entry(key);
      if r.status == 0 {
        if key in table {
          var whole := Complete(key, r.data);
          return Some(whole);
        }
        assert before - {key} == before;
        assert [] + report.data == report.data;
        return Some(r.data);
      } else if r.status == 1 {
        if (if key in table then table[key].len else 0) + r.data.len <= Reassembly.MAX_DATA {
          if key in table {
            Extend(key, r.data);
          } else {
            Open(key, r.data);
            assert [] + report.data == report.data;
          }
        }
      } else {
        Drop(key);
      }
      return None;
    }
  }
}
