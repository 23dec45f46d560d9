/** Python dicts from column name to value.  Python 2 iterates a dict in an
    order of its own choosing; here a dict is a sequence of entries with
    distinct keys, in one fixed order: a new key goes at the end, an
    existing key keeps its place. */
module Dicts {
  import opened Values

  type Dict = seq<(string, Value)>

  predicate DistinctKeys(d: Dict)
  {
    forall i, j :: 0 <= i < j < |d| ==> d[i].0 != d[j].0
  }

  /** `d.has_key(k)`. */
  predicate HasKey(d: Dict, k: string)
  {
    exists j :: 0 <= j < |d| && d[j].0 == k
  }

  /** `d.keys()`: one key per entry, and exactly the keys `has_key` finds. */
  function Keys(d: Dict): (r: seq<string>)
    ensures |r| == |d|
    ensures forall j :: 0 <= j < |d| ==> r[j] == d[j].0
    ensures forall k :: k in r <==> HasKey(d, k)
  {
    var r := seq(|d|, j requires 0 <= j < |d| => d[j].0);
    assert forall k :: HasKey(d, k) ==> k in r by {
      forall k | HasKey(d, k) ensures k in r {
        var j :| 0 <= j < |d| && d[j].0 == k;
        assert r[j] == k;
      }
    }
    r
  }

  /** `d[k]` when `k` is present. */
  function Lookup(d: Dict, k: string): (r: Option<Value>)
    ensures r.Some? <==> HasKey(d, k)
    ensures r.Some? ==> exists j :: 0 <= j < |d| && d[j] == (k, r.value)
    decreases |d|
  {
    if d == [] then None
    else if d[0].0 == k then Some(d[0].1)
    else
      var r := Lookup(d[1..], k);
      assert r.Some? ==> exists j :: 0 <= j < |d[1..]| && d[1..][j] == (k, r.value);
      assert HasKey(d[1..], k) ==> HasKey(d, k);
      assert HasKey(d, k) ==> HasKey(d[1..], k);
      r
  }

  /** In a dict without repeated keys, each entry's key looks up its value. */
  lemma {:induction false} LookupAll(d: Dict)
    ensures DistinctKeys(d) ==> forall j :: 0 <= j < |d| ==> Lookup(d, d[j].0) == Some(d[j].1)
    decreases |d|
  {
    if DistinctKeys(d) && d != [] {
      LookupAll(d[1..]);
      assert DistinctKeys(d[1..]);
      forall j | 0 < j < |d| ensures Lookup(d, d[j].0) == Some(d[j].1) {
        assert d[0].0 != d[j].0;
        assert d[1..][j - 1] == d[j];
      }
    }
  }

  /** `d.values()`, in the same order as `d.keys()`: the value at each
      position is what the key at that position looks up. */
  function ValuesOf(d: Dict): (r: seq<Value>)
    ensures |r| == |d|
    ensures DistinctKeys(d) ==> forall j :: 0 <= j < |d| ==> Lookup(d, Keys(d)[j]) == Some(r[j])
  {
    LookupAll(d);
    seq(|d|, j requires 0 <= j < |d| => d[j].1)
  }

  /** `d[k] = v`: replaces the entry of `k` where it stands, or adds one at
      the end. */
  function Put(d: Dict, k: string, v: Value): (r: Dict)
    decreases |d|
  {
    if d == [] then [(k, v)]
    else if d[0].0 == k then [(k, v)] + d[1..]
    else [d[0]] + Put(d[1..], k, v)
  }

  /** `del d[k]`. */
  function Remove(d: Dict, k: string): (r: Dict)
    decreases |d|
  {
    if d == [] then []
    else if d[0].0 == k then Remove(d[1..], k)
    else [d[0]] + Remove(d[1..], k)
  }

  /** The mapping a dict stands for. */
  function ToMap(d: Dict): (m: map<string, Value>)
    ensures forall k :: k in m <==> HasKey(d, k)
    ensures forall k :: k in m ==> Lookup(d, k) == Some(m[k])
  {
    map k | k in Keys(d) :: Lookup(d, k).value
  }

  /** After `d[k] = v`, `k` reads back as `v` and every other key as before. */
  lemma {:induction false} LookupPut(d: Dict, k: string, v: Value, k': string)
    ensures Lookup(Put(d, k, v), k') == if k' == k then Some(v) else Lookup(d, k')
    decreases |d|
  {
    if d != [] && d[0].0 != k {
      LookupPut(d[1..], k, v, k');
      assert Put(d, k, v)[1..] == Put(d[1..], k, v);
    } else if d != [] {
      assert Put(d, k, v)[1..] == d[1..];
    }
  }

  /** After `del d[k]`, `k` is absent and every other key reads as before. */
  lemma {:induction false} LookupRemove(d: Dict, k: string, k': string)
    ensures Lookup(Remove(d, k), k') == if k' == k then None else Lookup(d, k')
    decreases |d|
  {
    if d != [] {
      LookupRemove(d[1..], k, k');
      if d[0].0 != k {
        assert Remove(d, k)[1..] == Remove(d[1..], k);
      }
    }
  }

  /** Storing keeps the keys distinct; a new key goes at the end. */
  lemma {:induction false} PutKeepsDistinct(d: Dict, k: string, v: Value)
    requires DistinctKeys(d)
    ensures DistinctKeys(Put(d, k, v))
    ensures HasKey(d, k) ==> |Put(d, k, v)| == |d|
    ensures !HasKey(d, k) ==> Put(d, k, v) == d + [(k, v)]
    decreases |d|
  {
    PutShape(d, k, v);
    if d != [] && d[0].0 != k {
      var tail := Put(d[1..], k, v);
      assert DistinctKeys(d[1..]);
      PutKeepsDistinct(d[1..], k, v);
      forall j | 0 <= j < |tail| ensures d[0].0 != tail[j].0 {
        PutHead(d, k, v, j);
      }
      ConsDistinct(d[0], tail);
    } else if d != [] {
      assert DistinctKeys(d[1..]);
      forall j | 0 <= j < |d[1..]| ensures k != d[1..][j].0 {
        assert d[0].0 != d[j + 1].0;
      }
      ConsDistinct((k, v), d[1..]);
    }
  }

  /** An entry whose key the rest does not hold keeps the keys distinct. */
  lemma ConsDistinct(e: (string, Value), rest: Dict)
    requires DistinctKeys(rest)
    requires forall j :: 0 <= j < |rest| ==> e.0 != rest[j].0
    ensures DistinctKeys([e] + rest)
  {
    var r := [e] + rest;
    forall i, j | 0 <= i < j < |r| ensures r[i].0 != r[j].0 {
      assert r[j] == rest[j - 1];
      if i > 0 {
        assert r[i] == rest[i - 1];
      }
    }
  }

  /** Storing replaces in place or appends at the end. */
  lemma {:induction false} PutShape(d: Dict, k: string, v: Value)
    ensures HasKey(d, k) ==> |Put(d, k, v)| == |d|
    ensures !HasKey(d, k) ==> Put(d, k, v) == d + [(k, v)]
    decreases |d|
  {
    if d != [] && d[0].0 != k {
      PutShape(d[1..], k, v);
      assert HasKey(d, k) ==> HasKey(d[1..], k);
      if !HasKey(d, k) {
        assert !HasKey(d[1..], k);
        assert [d[0]] + (d[1..] + [(k, v)]) == d + [(k, v)];
      }
    }
  }

  /** Below a head whose key is not stored, no entry of the stored tail has
      the head's key. */
  lemma PutHead(d: Dict, k: string, v: Value, j: nat)
    requires DistinctKeys(d) && d != [] && d[0].0 != k
    requires j < |Put(d[1..], k, v)|
    ensures d[0].0 != Put(d[1..], k, v)[j].0
  {
    var tail := Put(d[1..], k, v);
    assert HasKey(tail, tail[j].0);
    LookupPut(d[1..], k, v, tail[j].0);
    if tail[j].0 != k {
      var i :| 0 <= i < |d[1..]| && d[1..][i].0 == tail[j].0;
      assert d[1 + i].0 == tail[j].0;
    }
  }

  lemma {:induction false} RemoveKeepsDistinct(d: Dict, k: string)
    requires DistinctKeys(d)
    ensures DistinctKeys(Remove(d, k))
    ensures !HasKey(Remove(d, k), k)
    decreases |d|
  {
    if d != [] {
      RemoveKeepsDistinct(d[1..], k);
      var tail := Remove(d[1..], k);
      forall j | 0 <= j < |tail| ensures d[0].0 != tail[j].0 {
        assert HasKey(tail, tail[j].0);
        LookupRemove(d[1..], k, tail[j].0);
        var i :| 0 <= i < |d[1..]| && d[1..][i].0 == tail[j].0;
        assert d[1 + i].0 == tail[j].0;
      }
      LookupRemove(d, k, k);
    }
  }

  /** As a mapping, `d[k] = v` is map update. */
  lemma ToMapPut(d: Dict, k: string, v: Value)
    ensures ToMap(Put(d, k, v)) == ToMap(d)[k := v]
  {
    var put, spec := ToMap(Put(d, k, v)), ToMap(d)[k := v];
    forall k' ensures k' in put <==> k' in spec {
      LookupPut(d, k, v, k');
    }
    forall k' | k' in put ensures put[k'] == spec[k'] {
      LookupPut(d, k, v, k');
    }
  }

  /** As a mapping, `del d[k]` is key removal. */
  lemma ToMapRemove(d: Dict, k: string)
    ensures ToMap(Remove(d, k)) == ToMap(d) - {k}
  {
    var removed, spec := ToMap(Remove(d, k)), ToMap(d) - {k};
    forall k' ensures k' in removed <==> k' in spec {
      LookupRemove(d, k, k');
    }
    forall k' | k' in removed ensures removed[k'] == spec[k'] {
      LookupRemove(d, k, k');
    }
  }

  /** Deleting a key and storing its old value again gives back the same
      mapping (though not necessarily the same iteration order). */
  lemma RemoveThenPutRestores(d: Dict, k: string)
    requires HasKey(d, k)
    ensures ToMap(Put(Remove(d, k), k, Lookup(d, k).value)) == ToMap(d)
  {
    ToMapRemove(d, k);
    ToMapPut(Remove(d, k), k, Lookup(d, k).value);
  }

  // ---------------------------------------------------------------- dict(zip(names, row))

  /** `zip(names, row)`: pairs up to the shorter of the two. */
  function Zip(names: seq<string>, row: seq<Value>): (r: seq<(string, Value)>)
    ensures |r| == if |names| <= |row| then |names| else |row|
    ensures forall j :: 0 <= j < |r| ==> r[j] == (names[j], row[j])
  {
    var n := if |names| <= |row| then |names| else |row|;
    seq(n, j requires 0 <= j < n => (names[j], row[j]))
  }

  /** `dict(pairs)`: each pair in turn is stored, so a later pair with the
      same key overwrites an earlier one. */
  function FromPairs(ps: seq<(string, Value)>): (r: Dict)
    decreases |ps|
  {
    if ps == [] then [] else Put(FromPairs(ps[..|ps| - 1]), ps[|ps| - 1].0, ps[|ps| - 1].1)
  }

  lemma {:induction false} FromPairsDistinct(ps: seq<(string, Value)>)
    ensures DistinctKeys(FromPairs(ps))
    decreases |ps|
  {
    if ps != [] {
      FromPairsDistinct(ps[..|ps| - 1]);
      PutKeepsDistinct(FromPairs(ps[..|ps| - 1]), ps[|ps| - 1].0, ps[|ps| - 1].1);
    }
  }

  /** Pairs whose keys are already distinct make a dict with exactly those
      entries, in that order. */
  lemma {:induction false} FromDistinctPairs(ps: seq<(string, Value)>)
    requires DistinctKeys(ps)
    ensures FromPairs(ps) == ps
    decreases |ps|
  {
    if ps != [] {
      var init := ps[..|ps| - 1];
      var last := ps[|ps| - 1];
      assert DistinctKeys(init);
      FromDistinctPairs(init);
      PutKeepsDistinct(init, last.0, last.1);
      assert init + [last] == ps;
    }
  }

  /** The value a key gets in `dict(pairs)` is the one of its last pair. */
  lemma {:induction false} FromPairsLastWins(ps: seq<(string, Value)>, i: nat)
    requires i < |ps|
    requires forall j :: i < j < |ps| ==> ps[j].0 != ps[i].0
    ensures Lookup(FromPairs(ps), ps[i].0) == Some(ps[i].1)
    decreases |ps|
  {
    var init := ps[..|ps| - 1];
    var last := ps[|ps| - 1];
    LookupPut(FromPairs(init), last.0, last.1, ps[i].0);
    if i < |ps| - 1 {
      FromPairsLastWins(init, i);
    }
  }

  /** The keys of `dict(pairs)` are exactly the keys of the pairs. */
  lemma {:induction false} FromPairsKeys(ps: seq<(string, Value)>, k: string)
    ensures HasKey(FromPairs(ps), k) <==> exists j :: 0 <= j < |ps| && ps[j].0 == k
    decreases |ps|
  {
    if ps != [] {
      var init := ps[..|ps| - 1];
      var last := ps[|ps| - 1];
      FromPairsKeys(init, k);
      LookupPut(FromPairs(init), last.0, last.1, k);
      if exists j :: 0 <= j < |ps| && ps[j].0 == k {
        var j :| 0 <= j < |ps| && ps[j].0 == k;
        if j < |ps| - 1 {
          assert init[j].0 == k;
        }
      }
      if exists j :: 0 <= j < |init| && init[j].0 == k {
        var j :| 0 <= j < |init| && init[j].0 == k;
        assert ps[j].0 == k;
      }
    }
  }

  /** `dict(zip(names, row))`, one fetched row as an object. */
  function RowDict(names: seq<string>, row: seq<Value>): Dict
  {
    FromPairs(Zip(names, row))
  }

  /** A fetched row as an object: it holds exactly the column names that are
      paired with a value, and each such name maps to the value of its last
      column of that name. */
  lemma RowDictSpec(names: seq<string>, row: seq<Value>, i: nat)
    requires i < |names| && i < |row|
    requires forall j :: i < j < |names| && j < |row| ==> names[j] != names[i]
    ensures Lookup(RowDict(names, row), names[i]) == Some(row[i])
  {
    var ps := Zip(names, row);
    FromPairsLastWins(ps, i);
  }

  lemma RowDictKeys(names: seq<string>, row: seq<Value>, k: string)
    ensures HasKey(RowDict(names, row), k) <==> exists j :: 0 <= j < |names| && j < |row| && names[j] == k
  {
    var ps := Zip(names, row);
    FromPairsKeys(ps, k);
    if exists j :: 0 <= j < |names| && j < |row| && names[j] == k {
      var j :| 0 <= j < |names| && j < |row| && names[j] == k;
      assert ps[j].0 == k;
    }
  }

  /** With distinct column names of the row's width, the object is the
      zipped pairs themselves. */
  lemma RowDictDistinct(names: seq<string>, row: seq<Value>)
    requires |names| == |row|
    requires forall i, j :: 0 <= i < j < |names| ==> names[i] != names[j]
    ensures RowDict(names, row) == Zip(names, row)
  {
    var ps := Zip(names, row);
    assert DistinctKeys(ps) by {
      forall i, j | 0 <= i < j < |ps| ensures ps[i].0 != ps[j].0 {
        assert names[i] != names[j];
      }
    }
    FromDistinctPairs(ps);
  }

  /** The objects `get_objects_by_sql` makes of the fetched rows, in fetch order. */
  function RowsToDicts(names: seq<string>, rows: seq<seq<Value>>): (r: seq<Dict>)
    ensures |r| == |rows|
  {
    seq(|rows|, i requires 0 <= i < |rows| => RowDict(names, rows[i]))
  }

  // ---------------------------------------------------------------- a dict the caller owns

  /** A dict object that the ORM edits in place on its caller's behalf. */
  class PyDict {
    var items: Dict

    ghost predicate Valid()
      reads this
    {
      DistinctKeys(items)
    }

    constructor (items: Dict)
      requires DistinctKeys(items)
      ensures Valid() && this.items == items
    {
      this.items := items;
    }

    /** `del d[k]`; Python raises `KeyError` for a missing key, which the
        ORM never lets happen. */
    method Delete(k: string)
      requires Valid() && HasKey(items, k)
      modifies this
      ensures Valid() && items == Remove(old(items), k)
      ensures !HasKey(items, k)
      ensures ToMap(items) == ToMap(old(items)) - {k}
    {
      RemoveKeepsDistinct(items, k);
      ToMapRemove(items, k);
      items := Remove(items, k);
    }

    /** `d[k] = v`. */
    method Store(k: string, v: Value)
      requires Valid()
      modifies this
      ensures Valid() && items == Put(old(items), k, v)
      ensures ToMap(items) == ToMap(old(items))[k := v]
    {
      PutKeepsDistinct(items, k, v);
      ToMapPut(items, k, v);
      items := Put(items, k, v);
    }
  }
}
