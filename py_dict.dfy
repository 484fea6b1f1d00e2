/**
 * A Python `dict` from page numbers to page texts, laid out as CPython lays
 * out a dict: a table of entries kept in insertion order. `keys()` and
 * `values()` both walk that one table, which is why position i of the one
 * and position i of the other belong to the same entry.
 */
module PyDict {
  import opened Wrappers

  datatype Entry = Entry(key: int, value: string)

  datatype Dict = Dict(entries: seq<Entry>)

  /** No key occurs in two entries, as in every Python dict. */
  predicate Valid(d: Dict) {
    forall i, j :: 0 <= i < j < |d.entries| ==> d.entries[i].key != d.entries[j].key
  }

  /** The dict with its first entry removed. */
  function Tail(d: Dict): Dict
    requires d.entries != []
  {
    Dict(d.entries[1..])
  }

  /** `list(d.keys())`: the keys in insertion order. */
  function Keys(d: Dict): (r: seq<int>)
    decreases |d.entries|
    ensures |r| == |d.entries|
    ensures forall i :: 0 <= i < |r| ==> r[i] == d.entries[i].key
  {
    if d.entries == [] then [] else [d.entries[0].key] + Keys(Tail(d))
  }

  /** `list(d.values())`: the values in insertion order. */
  function Values(d: Dict): (r: seq<string>)
    decreases |d.entries|
    ensures |r| == |d.entries|
    ensures forall i :: 0 <= i < |r| ==> r[i] == d.entries[i].value
  {
    if d.entries == [] then [] else [d.entries[0].value] + Values(Tail(d))
  }

  /** `d[k]`, with `None` where Python raises `KeyError`. */
  function Lookup(d: Dict, k: int): (r: Option<string>)
    decreases |d.entries|
    ensures r.None? <==> forall i :: 0 <= i < |d.entries| ==> d.entries[i].key != k
    ensures r.Some? ==> exists i :: 0 <= i < |d.entries| && d.entries[i] == Entry(k, r.value)
  {
    if d.entries == [] then None
    else if d.entries[0].key == k then Some(d.entries[0].value)
    else Lookup(Tail(d), k)
  }

  /** `d[k] = v`: a new key is appended at the end of the insertion order;
      an existing key keeps its place and takes the new value; the keys
      stay distinct. */
  function Insert(d: Dict, k: int, v: string): (r: Dict)
    requires Valid(d)
    decreases |d.entries|
    ensures Valid(r)
    ensures Lookup(d, k).None? ==> r.entries == d.entries + [Entry(k, v)]
    ensures Lookup(d, k).Some? ==> |r.entries| == |d.entries|
    ensures Lookup(d, k).Some? ==> forall i :: 0 <= i < |d.entries| ==>
      r.entries[i] == if d.entries[i].key == k then Entry(k, v) else d.entries[i]
  {
    if d.entries == [] then Dict([Entry(k, v)])
    else if d.entries[0].key == k then Dict([Entry(k, v)] + d.entries[1..])
    else
      var rest := Insert(Tail(d), k, v);
      if Lookup(Tail(d), k).None? then
        InsertConsFresh(d, k, v, rest);
        Dict([d.entries[0]] + rest.entries)
      else
        InsertConsPresent(d, k, v, rest);
        Dict([d.entries[0]] + rest.entries)
  }

  /** The recursive step of `Insert` for a new key: appending k to the rest
      of the table and putting the first entry back in front appends k to
      the whole table. */
  lemma InsertConsFresh(d: Dict, k: int, v: string, rest: Dict)
    requires Valid(d) && d.entries != [] && d.entries[0].key != k
    requires Lookup(Tail(d), k).None?
    requires rest.entries == Tail(d).entries + [Entry(k, v)]
    ensures var r := Dict([d.entries[0]] + rest.entries);
      && Lookup(d, k).None?
      && r.entries == d.entries + [Entry(k, v)]
      && Valid(r)
  {
    var e, t := d.entries[0], Tail(d);
    assert d.entries == [e] + t.entries;
    var r := Dict([e] + rest.entries);
    assert r.entries == d.entries + [Entry(k, v)];
    assert forall i :: 0 <= i < |d.entries| ==> d.entries[i].key != k;
  }

  /** The recursive step of `Insert` for a key already present: replacing
      k in the rest of the table and putting the first entry back in front
      replaces k in the whole table. */
  lemma InsertConsPresent(d: Dict, k: int, v: string, rest: Dict)
    requires Valid(d) && d.entries != [] && d.entries[0].key != k
    requires Lookup(Tail(d), k).Some?
    requires |rest.entries| == |Tail(d).entries|
    requires forall i :: 0 <= i < |Tail(d).entries| ==>
      rest.entries[i] == if Tail(d).entries[i].key == k then Entry(k, v) else Tail(d).entries[i]
    ensures var r := Dict([d.entries[0]] + rest.entries);
      && Lookup(d, k).Some?
      && |r.entries| == |d.entries|
      && (forall i :: 0 <= i < |d.entries| ==>
            r.entries[i] == if d.entries[i].key == k then Entry(k, v) else d.entries[i])
      && Valid(r)
  {
    var e, t := d.entries[0], Tail(d);
    var r := Dict([e] + rest.entries);
    assert Lookup(d, k) == Lookup(t, k);
    forall i | 0 <= i < |d.entries|
      ensures r.entries[i] == if d.entries[i].key == k then Entry(k, v) else d.entries[i]
      ensures r.entries[i].key == d.entries[i].key
    {
      if 0 < i {
        assert r.entries[i] == rest.entries[i - 1];
        assert d.entries[i] == t.entries[i - 1];
      } else {
        assert r.entries[0] == e;
      }
    }
    forall i, j | 0 <= i < j < |r.entries|
      ensures r.entries[i].key != r.entries[j].key
    {
      assert r.entries[i].key == d.entries[i].key && r.entries[j].key == d.entries[j].key;
    }
  }

  /** After `d[k] = v`, `d[k]` is `v`. */
  lemma InsertLookupSame(d: Dict, k: int, v: string)
    requires Valid(d)
    ensures Lookup(Insert(d, k, v), k) == Some(v)
  {
    if Lookup(d, k).Some? {
      var i :| 0 <= i < |d.entries| && d.entries[i].key == k;
      LookupAt(Insert(d, k, v), i);
    } else {
      LookupAt(Insert(d, k, v), |d.entries|);
    }
  }

  /** `d[k] = v` leaves the value of every other key as it was. */
  lemma InsertLookupOther(d: Dict, k: int, v: string, k': int)
    requires Valid(d)
    requires k' != k
    ensures Lookup(Insert(d, k, v), k') == Lookup(d, k')
  {
    var r := Insert(d, k, v);
    if Lookup(d, k).None? {
      LookupAppendOther(d, Entry(k, v), k');
    } else {
      LookupReplaceOther(d, r, k, k');
    }
  }

  /** Appending an entry with another key does not change a lookup. */
  lemma {:induction false} LookupAppendOther(d: Dict, e: Entry, k': int)
    requires e.key != k'
    ensures Lookup(Dict(d.entries + [e]), k') == Lookup(d, k')
    decreases |d.entries|
  {
    var r := Dict(d.entries + [e]);
    if d.entries != [] {
      assert r.entries[0] == d.entries[0];
      assert Tail(r).entries == Tail(d).entries + [e];
      LookupAppendOther(Tail(d), e, k');
    }
  }

  /** Changing the values stored under key k, and nothing else, does not
      change a lookup of another key. */
  lemma {:induction false} LookupReplaceOther(d: Dict, r: Dict, k: int, k': int)
    requires k' != k
    requires |r.entries| == |d.entries|
    requires forall i :: 0 <= i < |d.entries| ==>
      r.entries[i] == if d.entries[i].key == k then Entry(k, r.entries[i].value) else d.entries[i]
    ensures Lookup(r, k') == Lookup(d, k')
    decreases |d.entries|
  {
    if d.entries != [] {
      var rt, dt := Tail(r), Tail(d);
      forall i | 0 <= i < |dt.entries|
        ensures rt.entries[i] == if dt.entries[i].key == k then Entry(k, rt.entries[i].value) else dt.entries[i]
      {
        assert rt.entries[i] == r.entries[i + 1] && dt.entries[i] == d.entries[i + 1];
      }
      LookupReplaceOther(dt, rt, k, k');
    }
  }

  /** In a dict with distinct keys, looking up the key of entry i gives the
      value of entry i. */
  lemma {:induction false} LookupAt(d: Dict, i: int)
    requires Valid(d)
    requires 0 <= i < |d.entries|
    ensures Lookup(d, d.entries[i].key) == Some(d.entries[i].value)
    decreases |d.entries|
  {
    if i > 0 {
      assert d.entries[0].key != d.entries[i].key;
      LookupAt(Tail(d), i - 1);
    }
  }

  /** The i-th key and the i-th value come from the same entry: looking the
      i-th key up gives the i-th value. This needs the keys to be distinct. */
  lemma KeysValuesAligned(d: Dict, i: int)
    requires Valid(d)
    requires 0 <= i < |d.entries|
    ensures Lookup(d, Keys(d)[i]) == Some(Values(d)[i])
  {
    LookupAt(d, i);
  }

  /** `KeysValuesAligned` at every position at once. */
  lemma KeysValuesAlignedAll(d: Dict)
    requires Valid(d)
    ensures forall i :: 0 <= i < |d.entries| ==> Lookup(d, Keys(d)[i]) == Some(Values(d)[i])
  {
    forall i | 0 <= i < |d.entries|
      ensures Lookup(d, Keys(d)[i]) == Some(Values(d)[i])
    {
      LookupAt(d, i);
    }
  }
}
