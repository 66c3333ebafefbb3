/** The finite map that a sorted list of entries stands for. */
module BTreeEntries {
  import opened SeqEdit
  import opened BTreeModel

  /** Every record is pointed to by exactly one entry, and every entry points to a record. */
  ghost predicate Stored(ptrs: seq<Pointer>, records: map<RecordId, int>) {
    (forall i :: 0 <= i < |ptrs| ==> ptrs[i].ToRecord? && ptrs[i].record in records) &&
    (forall i, j :: 0 <= i < j < |ptrs| ==> ptrs[i] != ptrs[j]) &&
    (forall r :: r in records ==> ToRecord(r) in ptrs)
  }

  ghost predicate Valued(m: map<int, int>, keys: seq<int>, ptrs: seq<Pointer>, records: map<RecordId, int>) {
    |keys| == |ptrs| &&
    (forall i ::
       0 <= i < |keys| ==>
         keys[i] in m && ptrs[i].ToRecord? && ptrs[i].record in records && m[keys[i]] == records[ptrs[i].record]) &&
    (forall k :: k in m ==> k in keys)
  }

  /** The sorted entries (keys[i], ptrs[i]) and the records they point to are the map m. */
  ghost predicate Represents(m: map<int, int>, keys: seq<int>, ptrs: seq<Pointer>, records: map<RecordId, int>) {
    Ascending(keys) && Stored(ptrs, records) && Valued(m, keys, ptrs, records)
  }

  lemma InsertStored(ptrs: seq<Pointer>, records: map<RecordId, int>, i: nat, r: RecordId, v: int)
    requires Stored(ptrs, records) && i <= |ptrs| && r !in records
    ensures Stored(InsertAt(ptrs, i, ToRecord(r)), records[r := v])
  {
    var ps, rs := InsertAt(ptrs, i, ToRecord(r)), records[r := v];
    forall j | 0 <= j < |ps| && j != i ensures ps[j].ToRecord? && ps[j].record in records {
      assert ps[j] == ptrs[if j < i then j else j - 1];
    }
    forall q | q in rs ensures ToRecord(q) in ps {
      if q == r { assert ps[i] == ToRecord(r); }
      else {
        var j :| 0 <= j < |ptrs| && ptrs[j] == ToRecord(q);
        assert ps[if j < i then j else j + 1] == ToRecord(q);
      }
    }
  }

  lemma RemoveStored(ptrs: seq<Pointer>, records: map<RecordId, int>, i: nat)
    requires Stored(ptrs, records) && i < |ptrs|
    ensures Stored(RemoveAt(ptrs, i), records - {ptrs[i].record})
  {
    var ps, rs := RemoveAt(ptrs, i), records - {ptrs[i].record};
    forall q | q in rs ensures ToRecord(q) in ps {
      var j :| 0 <= j < |ptrs| && ptrs[j] == ToRecord(q);
      assert ps[if j < i then j else j - 1] == ToRecord(q);
    }
    forall j | 0 <= j < |ps| ensures ps[j].ToRecord? && ps[j].record in rs {
      assert ps[j] == ptrs[if j < i then j else j + 1];
    }
  }

  lemma InsertValued(m: map<int, int>, keys: seq<int>, ptrs: seq<Pointer>, records: map<RecordId, int>, i: nat, k: int,
      r: RecordId, v: int)
    requires Valued(m, keys, ptrs, records) && i <= |keys| && r !in records && k !in keys
    ensures Valued(m[k := v], InsertAt(keys, i, k), InsertAt(ptrs, i, ToRecord(r)), records[r := v])
  {
    var ks, ps := InsertAt(keys, i, k), InsertAt(ptrs, i, ToRecord(r));
    assert ks[i] == k;
    forall q | q in m ensures q in ks {
      var j :| 0 <= j < |keys| && keys[j] == q;
      assert ks[if j < i then j else j + 1] == q;
    }
    forall j | 0 <= j < |ks| && j != i
      ensures ks[j] in m && ks[j] != k && ps[j].ToRecord? && ps[j].record in records &&
              m[ks[j]] == records[ps[j].record]
    {
      var j' := if j < i then j else j - 1;
      assert ks[j] == keys[j'] && ps[j] == ptrs[j'];
    }
  }

  lemma InsertAscending(keys: seq<int>, i: nat, k: int)
    requires Ascending(keys) && i <= |keys| &&
             forall j :: 0 <= j < |keys| ==> if j < i then keys[j] < k else k < keys[j]
    ensures Ascending(InsertAt(keys, i, k)) && k !in keys
  {
  }

  lemma InsertRepresents(m: map<int, int>, keys: seq<int>, ptrs: seq<Pointer>, records: map<RecordId, int>, i: nat,
      k: int, r: RecordId, v: int)
    requires Represents(m, keys, ptrs, records) && i <= |keys| && r !in records
    requires forall j :: 0 <= j < |keys| ==> if j < i then keys[j] < k else k < keys[j]
    ensures Represents(m[k := v], InsertAt(keys, i, k), InsertAt(ptrs, i, ToRecord(r)), records[r := v])
  {
    InsertStored(ptrs, records, i, r, v);
    InsertAscending(keys, i, k);
    InsertValued(m, keys, ptrs, records, i, k, r, v);
  }

  lemma UpdateValued(m: map<int, int>, keys: seq<int>, ptrs: seq<Pointer>, records: map<RecordId, int>, i: nat, v: int)
    requires Valued(m, keys, ptrs, records) && i < |keys|
    requires forall j :: 0 <= j < |keys| && j != i ==> keys[j] != keys[i] && ptrs[j] != ptrs[i]
    ensures Valued(m[keys[i] := v], keys, ptrs, records[ptrs[i].record := v])
  {
  }

  lemma UpdateRepresents(m: map<int, int>, keys: seq<int>, ptrs: seq<Pointer>, records: map<RecordId, int>, i: nat,
      v: int)
    requires Represents(m, keys, ptrs, records) && i < |keys|
    ensures Represents(m[keys[i] := v], keys, ptrs, records[ptrs[i].record := v])
  {
    UpdateValued(m, keys, ptrs, records, i, v);
    assert Stored(ptrs, records[ptrs[i].record := v]) by { hide Valued; }
  }

  lemma RemoveValued(m: map<int, int>, keys: seq<int>, ptrs: seq<Pointer>, records: map<RecordId, int>, i: nat)
    requires Valued(m, keys, ptrs, records) && i < |keys|
    requires forall j :: 0 <= j < |keys| && j != i ==> keys[j] != keys[i] && ptrs[j] != ptrs[i]
    ensures Valued(m - {keys[i]}, RemoveAt(keys, i), RemoveAt(ptrs, i), records - {ptrs[i].record})
  {
    var ks, ps := RemoveAt(keys, i), RemoveAt(ptrs, i);
    forall q | q in m && q != keys[i] ensures q in ks {
      var j :| 0 <= j < |keys| && keys[j] == q;
      assert ks[if j < i then j else j - 1] == q;
    }
    forall j | 0 <= j < |ks|
      ensures ks[j] in m && ks[j] != keys[i] && ps[j].ToRecord? && ps[j] != ptrs[i] && ps[j].record in records &&
              m[ks[j]] == records[ps[j].record]
    {
      var j' := if j < i then j else j + 1;
      assert ks[j] == keys[j'] && ps[j] == ptrs[j'];
    }
  }

  lemma RemoveRepresents(m: map<int, int>, keys: seq<int>, ptrs: seq<Pointer>, records: map<RecordId, int>, i: nat)
    requires Represents(m, keys, ptrs, records) && i < |keys|
    ensures Represents(m - {keys[i]}, RemoveAt(keys, i), RemoveAt(ptrs, i), records - {ptrs[i].record})
  {
    RemoveStored(ptrs, records, i);
    RemoveValued(m, keys, ptrs, records, i);
  }
}
