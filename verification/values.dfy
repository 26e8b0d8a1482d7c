/**
 The parsed TOML value tree the tool works on (the `toml` crate's `Value`),
 and the by-key lookup `Value::get` that path resolution is built from.
 */
module Values {
  import opened Wrappers

  /** A TOML float (an `f64`); only its display text is ever used. */
  type FloatRepr(==, !new)

  /** A TOML date-time; only its display text is ever used. */
  type DtRepr(==, !new)

  /** A table is a sequence of (key, value) entries in iteration order. */
  datatype Value =
    | Str(s: string)
    | Bool(b: bool)
    | Int(i: int)
    | Flt(f: FloatRepr)
    | Dt(dt: DtRepr)
    | Arr(elems: seq<Value>)
    | Tbl(entries: seq<(string, Value)>)

  /** Scalars are atomic; arrays and tables are composite (`is_atomic`):
      the predicate fails exactly for arrays and tables. */
  function IsAtomic(v: Value): (r: bool)
    ensures r <==> !(v.Arr? || v.Tbl?)
  {
    match v
    case Str(_) => true
    case Bool(_) => true
    case Int(_) => true
    case Dt(_) => true
    case Flt(_) => true
    case Arr(_) => false
    case Tbl(_) => false
  }

  /** The parser guarantees that no key occurs twice in one table. */
  ghost predicate UniqueKeys(entries: seq<(string, Value)>)
  {
    forall i, j :: 0 <= i < j < |entries| ==> entries[i].0 != entries[j].0
  }

  /** The value of the first entry whose key is `key`, if any. */
  function Lookup(entries: seq<(string, Value)>, key: string): (r: Option<Value>)
    ensures r.None? <==> forall i :: 0 <= i < |entries| ==> entries[i].0 != key
    ensures r.Some? ==> exists i :: 0 <= i < |entries| && entries[i] == (key, r.value)
                                   && forall j :: 0 <= j < i ==> entries[j].0 != key
  {
    if |entries| == 0 then None
    else if entries[0].0 == key then Some(entries[0].1)
    else
      var r := Lookup(entries[1..], key);
      assert forall i :: 0 < i < |entries| ==> entries[i] == entries[1..][i - 1];
      r
  }

  /** Indexing a value by a string key: only a table has entries, so every
      other value answers `None`. */
  function Get(v: Value, key: string): (r: Option<Value>)
    ensures !v.Tbl? ==> r.None?
    ensures v.Tbl? ==> (r.None? <==> forall i :: 0 <= i < |v.entries| ==> v.entries[i].0 != key)
    ensures r.Some? ==> v.Tbl? && (key, r.value) in v.entries
  {
    if v.Tbl? then Lookup(v.entries, key) else None
  }

  /** In a table with unique keys, lookup finds `v` under `key` exactly when
      the entry `(key, v)` is in the table. */
  lemma GetUniqueKeys(entries: seq<(string, Value)>, key: string, v: Value)
    requires UniqueKeys(entries)
    ensures Get(Tbl(entries), key) == Some(v) <==> (key, v) in entries
  {
    var r := Lookup(entries, key);
    if (key, v) in entries {
      var k :| 0 <= k < |entries| && entries[k] == (key, v);
      assert r.Some?;
      var i :| 0 <= i < |entries| && entries[i] == (key, r.value)
               && forall j :: 0 <= j < i ==> entries[j].0 != key;
      assert i == k;
    }
  }
}
