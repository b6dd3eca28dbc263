/** A JavaScript object used as a dictionary from strings to values: its entries,
    and its keys in insertion order, which is the order `Object.values` lists them in.
    Assigning to an existing key keeps its place; a new key goes last. */
module Dictionary {

  datatype Dict<V> = Dict(keys: seq<string>, entries: map<string, V>) {

    ghost predicate Valid() {
      && (forall i, j :: 0 <= i < j < |keys| ==> keys[i] != keys[j])
      && (forall k :: k in entries <==> k in keys)
    }

    /** `obj[k] = v` */
    function Put(k: string, v: V): (d: Dict<V>)
      requires Valid()
      ensures d.Valid()
      ensures d.entries == entries[k := v]
      ensures d.keys == if k in entries then keys else keys + [k]
    {
      Dict(if k in entries then keys else keys + [k], entries[k := v])
    }

    /** `Object.values(obj)` */
    function Values(): (vs: seq<V>)
      requires Valid()
      ensures |vs| == |keys|
      ensures forall i :: 0 <= i < |keys| ==> vs[i] == entries[keys[i]]
    {
      seq(|keys|, i requires 0 <= i < |keys| => entries[keys[i]])
    }

    /** Two assignments to the same key leave what the second one alone would. */
    lemma PutPut(k: string, v: V, w: V)
      requires Valid()
      ensures Put(k, v).Put(k, w) == Put(k, w)
    {
      assert Put(k, v).entries[k := w] == entries[k := w];
    }
  }

  /** `{}` */
  function Empty<V>(): (d: Dict<V>)
    ensures d.Valid() && d.keys == [] && d.entries == map[]
  {
    Dict([], map[])
  }
}
