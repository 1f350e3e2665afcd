/** A Python `dict` with string keys, as the modelled code uses it: lookups that
    raise KeyError, assignment that keeps insertion order, and `list(d.keys())`. */
module PyDict {
  import opened PyResult

  /** `keys` is the insertion order (what `list(d.keys())` returns), `entries`
      the key-value pairs. */
  datatype Dict<V> = Dict(keys: seq<string>, entries: map<string, V>) {

    /** The representation invariant of every Python dict: each key is listed
        exactly once, and exactly the keys that have an entry are listed. */
    ghost predicate Valid() {
      && (forall k :: k in entries <==> k in keys)
      && (forall i, j :: 0 <= i < j < |keys| ==> keys[i] != keys[j])
    }

    /** `d[k]`. */
    function Get(k: string): (r: Result<V>)
      ensures r.Ok? <==> k in entries
      ensures r.Ok? ==> r.value == entries[k]
      ensures r.Err? ==> r.error == KeyError(k)
    {
      if k in entries then Ok(entries[k]) else Err(KeyError(k))
    }

    /** `d[k] = v`: an existing key keeps its place in the order, a new key goes last. */
    function Set(k: string, v: V): (d: Dict<V>)
      ensures Valid() ==> d.Valid()
      ensures d.Get(k) == Ok(v)
      ensures forall k' :: k' != k ==> d.Get(k') == Get(k')
      ensures keys <= d.keys && (Valid() ==> k in d.keys)
      ensures k in entries ==> d.keys == keys
      ensures k !in entries ==> d.keys == keys + [k]
    {
      if k in entries then Dict(keys, entries[k := v]) else Dict(keys + [k], entries[k := v])
    }
  }

  /** A CSV row as `csv.DictReader` yields it: field name to text. */
  type Row = Dict<string>
}
