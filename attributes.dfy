/** The item's attribute dictionary: a Python 3.7+ `dict` from field name
    to raw value, which remembers the order in which keys were first
    inserted. */
module Attributes {
  import opened Results
  import opened Sequences

  /** `keys` lists the keys in insertion order; `entries` holds the values. */
  datatype Dict = Dict(keys: seq<string>, entries: map<string, string>) {

    /** Every key is listed exactly once, and only keys are listed. */
    ghost predicate Valid()
    {
      && (forall i, j :: 0 <= i < j < |keys| ==> keys[i] != keys[j])
      && (forall k :: k in entries <==> k in keys)
    }

    /** `d[key]`: the value stored under `key`, or a `KeyError`. */
    function Get(key: string): (r: Result<string>)
      ensures r.Ok? <==> key in keys
      requires Valid()
      ensures r.Ok? ==> r.value == entries[key]
      ensures r.KeyError? ==> r.key == key
    {
      if key in entries then Ok(entries[key]) else KeyError(key)
    }

    /** `d[key] = value`: a new key goes to the end of the order, an existing
        key keeps its place and only its value changes. */
    function Put(key: string, value: string): (d: Dict)
      requires Valid()
      ensures d.Valid()
      ensures key in d.keys && d.entries[key] == value
      ensures forall k :: k != key ==> (k in d.entries <==> k in entries)
      ensures forall k :: k != key && k in entries ==> d.entries[k] == entries[k]
      ensures |keys| <= |d.keys| && d.keys[..|keys|] == keys
      ensures key in keys ==> d.keys == keys
      ensures key !in keys ==> d.keys == keys + [key]
    {
      if key in entries then Dict(keys, entries[key := value])
      else Dict(keys + [key], entries[key := value])
    }
  }

  /** The dictionary `{}`. */
  const Empty := Dict([], map[])

  /** The dictionary after the writes `writes`, in order, starting from `d`. */
  function PutAll(d: Dict, writes: seq<(string, string)>): (r: Dict)
    requires d.Valid()
    ensures r.Valid()
  {
    if writes == [] then d
    else
      var (key, value) := writes[|writes| - 1];
      PutAll(d, writes[..|writes| - 1]).Put(key, value)
  }

  /** The names written, in order. */
  function Names(writes: seq<(string, string)>): seq<string>
  {
    seq(|writes|, i requires 0 <= i < |writes| => writes[i].0)
  }

  /** Filling an empty dictionary lists each name once, in the order in
      which it was first written; later writes to a name do not move it. */
  lemma {:induction false} PutAllKeyOrder(writes: seq<(string, string)>)
    ensures PutAll(Empty, writes).keys == Dedup(Names(writes))
  {
    if writes != [] {
      var init := writes[..|writes| - 1];
      assert Names(init) == Names(writes)[..|writes| - 1];
      PutAllKeyOrder(init);
    }
  }
}
