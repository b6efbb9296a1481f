/** Python's built-in `dict` as the integration uses it: a finite map that also
    remembers the order in which its keys were first inserted. Iteration follows
    that order, assigning to a key that is already present keeps its place, and
    `pop` drops one key while the others keep their relative order. */
module PyDict {

  /** No element of `s` occurs twice. */
  ghost predicate Distinct<K>(s: seq<K>) {
    forall a, b :: 0 <= a < b < |s| ==> s[a] != s[b]
  }

  /** The elements of `s`, as a set. */
  ghost function Elems<K>(s: seq<K>): set<K> {
    set x | x in s
  }

  /** A dictionary: when `Valid`, `keys` lists every key of `entries` exactly
      once, in insertion (and so iteration) order. */
  datatype Dict<K(==,!new), V> = Dict(keys: seq<K>, entries: map<K, V>) {
    ghost predicate Valid() {
      Distinct(keys) && forall k :: k in keys <==> k in entries
    }
  }

  /** `d[k] = v` */
  function Put<K(==,!new), V>(d: Dict<K, V>, k: K, v: V): (r: Dict<K, V>)
    requires d.Valid()
    ensures r.Valid()
  {
    if k in d.entries then
      Dict(d.keys, d.entries[k := v])
    else
      assert Distinct(d.keys + [k]) by {
        forall a, b | 0 <= a < b < |d.keys| + 1 ensures (d.keys + [k])[a] != (d.keys + [k])[b] {
          if b == |d.keys| { assert (d.keys + [k])[a] == d.keys[a]; }
        }
      }
      Dict(d.keys + [k], d.entries[k := v])
  }

  /** `d.pop(k)`, whose result the source discards; Python raises KeyError for a
      missing key, which no caller in the model lets happen. */
  function Pop<K(==,!new), V>(d: Dict<K, V>, k: K): (r: Dict<K, V>)
    requires d.Valid() && k in d.entries
    ensures r.Valid()
  {
    RestrictDistinct(d.keys, d.entries.Keys - {k});
    Dict(Restrict(d.keys, d.entries.Keys - {k}), d.entries - {k})
  }

  /** The elements of `s` that belong to `keep`, in their order in `s`. */
  function Restrict<K(==,!new)>(s: seq<K>, keep: set<K>): (r: seq<K>)
    ensures forall x {:trigger x in r} :: x in r <==> x in s && x in keep
  {
    if s == [] then []
    else
      var init, last := s[..|s| - 1], s[|s| - 1];
      assert forall x :: x in s <==> x in init || x == last;
      Restrict(init, keep) + (if last in keep then [last] else [])
  }

  /** Filtering keeps a sequence free of repetitions. */
  lemma {:induction false} RestrictDistinct<K(!new)>(s: seq<K>, keep: set<K>)
    requires Distinct(s)
    ensures Distinct(Restrict(s, keep))
  {
    if s != [] {
      var init, last := s[..|s| - 1], s[|s| - 1];
      assert Distinct(init) by {
        forall a, b | 0 <= a < b < |init| ensures init[a] != init[b] {
          assert init[a] == s[a] && init[b] == s[b];
        }
      }
      assert last !in init by {
        forall a | 0 <= a < |init| ensures init[a] != last {
          assert init[a] == s[a];
        }
      }
      RestrictDistinct(init, keep);
      DistinctConcat(Restrict(init, keep), if last in keep then [last] else []);
    }
  }

  /** Two sequences without repetitions and without common elements
      concatenate into one without repetitions. */
  lemma DistinctConcat<K>(a: seq<K>, b: seq<K>)
    requires Distinct(a) && Distinct(b)
    requires forall x :: x in a ==> x !in b
    ensures Distinct(a + b)
  {
    forall i, j | 0 <= i < j < |a + b| ensures (a + b)[i] != (a + b)[j] {
      if j < |a| {
        assert (a + b)[i] == a[i] && (a + b)[j] == a[j];
      } else if i < |a| {
        assert (a + b)[i] == a[i] && (a + b)[j] == b[j - |a|];
        assert a[i] in a;
      } else {
        assert (a + b)[i] == b[i - |a|] && (a + b)[j] == b[j - |a|];
      }
    }
  }

  /** Filtering a concatenation filters each part. */
  lemma {:induction false} RestrictConcat<K(!new)>(a: seq<K>, b: seq<K>, keep: set<K>)
    ensures Restrict(a + b, keep) == Restrict(a, keep) + Restrict(b, keep)
  {
    if b == [] {
      assert a + b == a;
    } else {
      var init := b[..|b| - 1];
      assert (a + b)[..|a + b| - 1] == a + init;
      assert (a + b)[|a + b| - 1] == b[|b| - 1];
      RestrictConcat(a, init, keep);
    }
  }

  /** Filtering twice is filtering by both sets at once. */
  lemma {:induction false} RestrictTwice<K(!new)>(s: seq<K>, first: set<K>, second: set<K>)
    ensures Restrict(Restrict(s, first), second) == Restrict(s, first * second)
  {
    if s != [] {
      var init, last := s[..|s| - 1], s[|s| - 1];
      RestrictTwice(init, first, second);
      RestrictConcat(Restrict(init, first), if last in first then [last] else [], second);
      if last in first {
        var one := [last];
        assert one[..|one| - 1] == [];
      }
    }
  }

  /** Only the elements of `s` matter to the filter. */
  lemma {:induction false} RestrictAgrees<K(!new)>(s: seq<K>, keep: set<K>, keep': set<K>)
    requires forall x :: x in s ==> (x in keep <==> x in keep')
    ensures Restrict(s, keep) == Restrict(s, keep')
  {
    if s != [] {
      var init := s[..|s| - 1];
      assert forall x :: x in init ==> x in s;
      RestrictAgrees(init, keep, keep');
    }
  }

  /** A filter that every element passes changes nothing. */
  lemma {:induction false} RestrictKeepsAll<K(!new)>(s: seq<K>, keep: set<K>)
    requires forall x :: x in s ==> x in keep
    ensures Restrict(s, keep) == s
  {
    if s != [] {
      var init := s[..|s| - 1];
      assert forall x :: x in init ==> x in s;
      RestrictKeepsAll(init, keep);
    }
  }

  /** A filter that no element passes leaves nothing. */
  lemma {:induction false} RestrictNone<K(!new)>(s: seq<K>, keep: set<K>)
    requires forall x :: x in s ==> x !in keep
    ensures Restrict(s, keep) == []
  {
    if s != [] {
      var init := s[..|s| - 1];
      assert forall x :: x in init ==> x in s;
      RestrictNone(init, keep);
    }
  }

  /** Popping a key from a dictionary whose keys follow the order of `order`
      leaves the remaining keys in that order. */
  lemma PopKeepsOrder<K(!new), V>(d: Dict<K, V>, order: seq<K>, k: K)
    requires d.Valid() && k in d.entries
    requires d.keys == Restrict(order, d.entries.Keys)
    ensures Pop(d, k).keys == Restrict(order, Pop(d, k).entries.Keys)
  {
    var keys := d.entries.Keys;
    RestrictTwice(order, keys, keys - {k});
    assert keys * (keys - {k}) == keys - {k};
  }

  /** The elements of a sequence grown by one. */
  lemma ElemsSnoc<K>(s: seq<K>, n: nat)
    requires n < |s|
    ensures Elems(s[..n + 1]) == Elems(s[..n]) + {s[n]}
  {
    assert s[..n + 1] == s[..n] + [s[n]];
  }

  /** `d` is what popping the first `k` keys of `remove`, one after the other,
      leaves of `start`: those entries are gone, the others keep their values
      and their order, and the keys still to be popped are present. */
  ghost predicate PoppedPrefix<K(!new), V>(start: Dict<K, V>, remove: seq<K>, k: nat, d: Dict<K, V>) {
    && k <= |remove|
    && d.Valid()
    && (forall j :: k <= j < |remove| ==> remove[j] in d.entries)
    && d.entries == start.entries - Elems(remove[..k])
    && d.keys == Restrict(start.keys, d.entries.Keys)
  }

  /** Popping the next key of `remove` extends the popped prefix by one. */
  lemma PopNext<K(!new), V>(start: Dict<K, V>, remove: seq<K>, k: nat, d: Dict<K, V>)
    requires Distinct(remove)
    requires PoppedPrefix(start, remove, k, d) && k < |remove|
    ensures remove[k] in d.entries && d.Valid()
    ensures PoppedPrefix(start, remove, k + 1, Pop(d, remove[k]))
  {
    ElemsSnoc(remove, k);
    PopKeepsOrder(d, start.keys, remove[k]);
  }
}
