/**
 * Python's `dict` with string keys, as far as the status tally uses it:
 * a map that remembers the order in which its keys were first inserted.
 */
module OrderedDict {

  datatype Dict<V> = Dict(keys: seq<string>, vals: map<string, V>) {

    /** The keys are listed once each, and they are exactly the keys of the map. */
    ghost predicate Valid()
    {
      && (forall i, j :: 0 <= i < j < |keys| ==> keys[i] != keys[j])
      && (forall k :: k in vals <==> k in keys)
    }

    /** `d.get(k, default)` */
    function Get(k: string, default: V): V
    {
      if k in vals then vals[k] else default
    }

    /**
     * `d[k] = v`: a new key goes to the end of the order, an existing key
     * keeps its place and only its value changes.
     */
    function Put(k: string, v: V): (d: Dict<V>)
      requires Valid()
      ensures d.Valid()
      ensures d.vals == vals[k := v]
      ensures d.keys == if k in vals then keys else keys + [k]
    {
      if k in vals then Dict(keys, vals[k := v]) else Dict(keys + [k], vals[k := v])
    }

    /** `d.values()`, in key order. */
    function Values(): (vs: seq<V>)
      requires Valid()
      ensures |vs| == |keys| && forall i :: 0 <= i < |keys| ==> vs[i] == vals[keys[i]]
    {
      seq(|keys|, i requires 0 <= i < |keys| && Valid() => vals[keys[i]])
    }

    /** `d.items()`, in key order. */
    function Items(): (items: seq<(string, V)>)
      requires Valid()
      ensures |items| == |keys|
      ensures forall i :: 0 <= i < |keys| ==> items[i] == (keys[i], vals[keys[i]])
    {
      seq(|keys|, i requires 0 <= i < |keys| && Valid() => (keys[i], vals[keys[i]]))
    }
  }

  /** `{}` */
  function Empty<V>(): (d: Dict<V>)
    ensures d.Valid() && d.keys == [] && d.vals == map[]
  {
    Dict([], map[])
  }
}
