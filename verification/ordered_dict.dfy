/** Python's `dict` as the script uses it: a finite map that remembers the order
    in which its keys were first inserted. Assigning to a key already present
    replaces its value and leaves its position alone. */
module OrderedDict {

  /** No element occurs twice in `xs`. */
  ghost predicate Distinct<K>(xs: seq<K>) {
    forall i, j :: 0 <= i < j < |xs| ==> xs[i] != xs[j]
  }

  /** `keys` is the iteration order, `entries` the lookup table. */
  datatype Dict<K(!new), V> = Dict(keys: seq<K>, entries: map<K, V>) {

    /** Every key is listed exactly once, and only the keys are listed. */
    ghost predicate Valid() {
      && Distinct(keys)
      && (forall k :: k in entries <==> k in keys)
    }

    /** `d[k] = v`. */
    function Put(k: K, v: V): (d: Dict<K, V>)
      requires Valid()
      ensures d.Valid()
      ensures k in d.entries && d.entries[k] == v
      ensures forall k' :: k' != k ==> (k' in d.entries <==> k' in entries)
      ensures forall k' :: k' != k && k' in entries ==> d.entries[k'] == entries[k']
      ensures k in entries ==> d.keys == keys
      ensures k !in entries ==> d.keys == keys + [k]
    {
      Dict(if k in entries then keys else keys + [k], entries[k := v])
    }

    /** `list(d.items())`: the entries in iteration order. */
    function Items(): (items: seq<(K, V)>)
      requires Valid()
      ensures |items| == |keys|
      ensures forall i :: 0 <= i < |items| ==>
        items[i].0 == keys[i] && keys[i] in entries && items[i].1 == entries[keys[i]]
    {
      seq(|keys|, i requires 0 <= i < |keys| => (keys[i], entries[keys[i]]))
    }
  }

  /** `{}`. */
  function Empty<K(!new), V>(): (d: Dict<K, V>)
    ensures d.Valid() && d.keys == [] && d.entries == map[]
  {
    Dict([], map[])
  }

  /** The position of the first occurrence of `k` in `xs`. */
  function FirstIndex<K(==)>(xs: seq<K>, k: K): (i: nat)
    requires k in xs
    ensures i < |xs| && xs[i] == k
    ensures forall j :: 0 <= j < i ==> xs[j] != k
  {
    if xs[0] == k then 0 else 1 + FirstIndex(xs[1..], k)
  }

  /** The distinct elements of `xs` in the order of their first occurrence:
      the key order a dict ends with after assigning `xs` one by one. */
  function Dedup<K(==,!new)>(xs: seq<K>): (r: seq<K>)
    ensures Distinct(r)
    ensures forall k :: k in r <==> k in xs
    decreases |xs|
  {
    if |xs| == 0 then []
    else
      var p := Dedup(xs[..|xs| - 1]);
      if xs[|xs| - 1] in p then p else p + [xs[|xs| - 1]]
  }

  /** `Dedup` lists elements strictly by the position of their first occurrence. */
  lemma {:induction false} DedupFollowsFirstOccurrence<K(!new)>(xs: seq<K>, a: int, b: int)
    requires 0 <= a < b < |Dedup(xs)|
    ensures FirstIndex(xs, Dedup(xs)[a]) < FirstIndex(xs, Dedup(xs)[b])
    decreases |xs|
  {
    var init := xs[..|xs| - 1];
    var x := xs[|xs| - 1];
    assert xs == init + [x];
    var p := Dedup(init);
    var r := Dedup(xs);
    assert r == if x in p then p else p + [x];
    assert r[a] == p[a];
    assert p[a] in init;
    FirstIndexOfPrefix(init, x, p[a]);
    if b < |p| {
      assert r[b] == p[b];
      assert p[b] in init;
      FirstIndexOfPrefix(init, x, p[b]);
      DedupFollowsFirstOccurrence(init, a, b);
    } else {
      assert r[b] == x && x !in init;
      assert FirstIndex(xs, x) == |init|;
    }
  }

  /** Appending an element does not move the first occurrence of anything already present. */
  lemma FirstIndexOfPrefix<K>(init: seq<K>, x: K, k: K)
    requires k in init
    ensures FirstIndex(init + [x], k) == FirstIndex(init, k)
  {
    var i := FirstIndex(init + [x], k);
    var j := FirstIndex(init, k);
    assert (init + [x])[j] == k;
  }
}
