/**
 * A Python dict / OrderedDict from field names to values: the field names in
 * insertion order, and the value of each. Parsed rows, stored documents and
 * `Metric` objects are all records.
 */
module Records {
  import opened Values

  /** No name occurs twice. */
  predicate Distinct(s: seq<string>) {
    s == [] || (s[0] !in s[1..] && Distinct(s[1..]))
  }

  /** The names occurring in `s`. */
  function KeySet(s: seq<string>): set<string> {
    if s == [] then {} else {s[0]} + KeySet(s[1..])
  }

  datatype Record = Record(keys: seq<string>, vals: map<string, Value>) {
    /** Every key listed once, and exactly the keys that have a value. */
    ghost predicate Valid() {
      Distinct(keys) && vals.Keys == KeySet(keys)
    }
  }

  const Empty := Record([], map[])

  /**
   * The two fields that make up a metric's natural key. They are declared
   * here, below both the sheet parser and the metric module, because the
   * parser converts the `Date` column on its own before any metric exists.
   */
  const PropertyIdField: string := "PropertyID"
  const DateField: string := "Date"

  /**
   * The members of a set, each listed once, in an order the model leaves
   * open: the order of a database scan, or of Python's `list(set)`.
   */
  method ListSet<T>(s: set<T>) returns (xs: seq<T>)
    ensures |xs| == |s|
    ensures forall x | x in s :: x in xs
    ensures forall i | 0 <= i < |xs| :: xs[i] in s
    ensures forall i, j | 0 <= i < j < |xs| :: xs[i] != xs[j]
  {
    var remaining := s;
    xs := [];
    while remaining != {}
      invariant remaining <= s
      invariant |xs| + |remaining| == |s|
      invariant forall i | 0 <= i < |xs| :: xs[i] in s && xs[i] !in remaining
      invariant forall i, j | 0 <= i < j < |xs| :: xs[i] != xs[j]
      invariant forall x | x in s :: x in xs || x in remaining
      decreases |remaining|
    {
      var x :| x in remaining;
      xs := xs + [x];
      remaining := remaining - {x};
    }
  }

  lemma {:induction false} KeySetMember(s: seq<string>)
    ensures forall k :: k in KeySet(s) <==> k in s
  {
    if s != [] {
      KeySetMember(s[1..]);
      assert forall k :: k in s <==> k == s[0] || k in s[1..];
    }
  }

  lemma {:induction false} KeySetAppend(s: seq<string>, t: seq<string>)
    ensures KeySet(s + t) == KeySet(s) + KeySet(t)
  {
    if s != [] {
      assert (s + t)[1..] == s[1..] + t;
      KeySetAppend(s[1..], t);
    } else {
      assert s + t == t;
    }
  }

  lemma {:induction false} DistinctAppend(s: seq<string>, t: seq<string>)
    requires Distinct(s) && Distinct(t)
    requires forall k :: k in s ==> k !in t
    ensures Distinct(s + t)
  {
    if s == [] {
      assert s + t == t;
    } else {
      assert (s + t)[1..] == s[1..] + t;
      DistinctAppend(s[1..], t);
      assert s[0] !in t;
    }
  }

  /** Dropping the first key of a distinct list leaves a distinct list. */
  lemma DistinctTailOf(s: seq<string>)
    requires Distinct(s) && s != []
    ensures Distinct(s[1..])
  {
  }

  /** `d.get(k, default)`: the stored value, or the default when the key is absent. */
  function Get(r: Record, k: string, default: Value): (v: Value)
    ensures k in r.vals ==> v == r.vals[k]
    ensures k !in r.vals ==> v == default
  {
    if k in r.vals then r.vals[k] else default
  }

  /** `d[k] = v`: a new key goes to the end, an existing key keeps its place. */
  function Set(r: Record, k: string, v: Value): (r': Record)
    requires r.Valid()
    ensures r'.Valid()
    ensures r'.vals == r.vals[k := v]
    ensures r'.keys == if k in r.vals then r.keys else r.keys + [k]
  {
    if k in r.vals then Record(r.keys, r.vals[k := v])
    else
      KeySetMember(r.keys);
      KeySetAppend(r.keys, [k]);
      DistinctAppend(r.keys, [k]);
      Record(r.keys + [k], r.vals[k := v])
  }

  /** After `d[k] = v`, `d.get` reads `v` under `k` and the old value under every other key. */
  lemma GetSet(r: Record, k: string, v: Value, k': string, default: Value)
    requires r.Valid()
    ensures Get(Set(r, k, v), k', default) == if k' == k then v else Get(r, k', default)
  {
  }

  /** The elements of `ks` that are not in `present`, in their order. */
  function Missing(ks: seq<string>, present: set<string>): seq<string> {
    if ks == [] then [] else (if ks[0] in present then [] else [ks[0]]) + Missing(ks[1..], present)
  }

  /** `ks` without `k`, order kept. */
  function Without(ks: seq<string>, k: string): seq<string> {
    if ks == [] then [] else (if ks[0] == k then [] else [ks[0]]) + Without(ks[1..], k)
  }

  lemma {:induction false} WithoutDistinct(ks: seq<string>, k: string)
    requires Distinct(ks)
    ensures Distinct(Without(ks, k))
    ensures KeySet(Without(ks, k)) == KeySet(ks) - {k}
  {
    if ks != [] {
      WithoutDistinct(ks[1..], k);
      if ks[0] != k {
        var w := Without(ks[1..], k);
        assert Without(ks, k) == [ks[0]] + w;
        assert ks[0] !in w by {
          KeySetMember(w);
          KeySetMember(ks[1..]);
        }
      } else {
        assert Without(ks, k) == Without(ks[1..], k);
      }
    }
  }

  lemma {:induction false} WithoutAbsent(ks: seq<string>, k: string)
    requires k !in ks
    ensures Without(ks, k) == ks
  {
    if ks != [] {
      WithoutAbsent(ks[1..], k);
    }
  }

  lemma WithoutHead(ks: seq<string>)
    requires Distinct(ks) && ks != []
    ensures Without(ks, ks[0]) == ks[1..]
  {
    WithoutAbsent(ks[1..], ks[0]);
  }

  /** `d.pop(k, None)`: the value removed (Null when absent) and the record left. */
  function Pop(r: Record, k: string): (p: (Value, Record))
    requires r.Valid()
    ensures p.1.Valid()
    ensures k !in p.1.vals
    ensures k in r.vals ==> p.1.vals[k := p.0] == r.vals
  {
    WithoutDistinct(r.keys, k);
    (Get(r, k, Null), Record(Without(r.keys, k), r.vals - {k}))
  }

  /** Popping a field the record lacks gives `None` and leaves the record as it was. */
  lemma PopAbsent(r: Record, k: string)
    requires r.Valid() && k !in r.vals
    ensures Pop(r, k) == (Null, r)
  {
    KeySetMember(r.keys);
    WithoutAbsent(r.keys, k);
    assert r.vals - {k} == r.vals;
  }

  /** `d[k] = src[k]` for each `k` of `ks` in turn: the loop inside `dict.update`. */
  function Overlay(r: Record, ks: seq<string>, src: map<string, Value>): (u: Record)
    requires r.Valid()
    requires forall k :: k in ks ==> k in src
    ensures u.Valid()
    decreases |ks|
  {
    if ks == [] then r else Overlay(Set(r, ks[0], src[ks[0]]), ks[1..], src)
  }

  /** The fields of `src` named in `ks`. */
  function Pick(src: map<string, Value>, ks: seq<string>): map<string, Value>
    requires forall k :: k in ks ==> k in src
  {
    map k | k in ks :: src[k]
  }

  lemma PickShift(a: map<string, Value>, src: map<string, Value>, ks: seq<string>)
    requires ks != []
    requires forall k :: k in ks ==> k in src
    ensures a[ks[0] := src[ks[0]]] + Pick(src, ks[1..]) == a + Pick(src, ks)
  {
    var k0, rest := ks[0], ks[1..];
    assert forall k :: k in ks <==> k == k0 || k in rest;
  }

  /** Overlaying: every listed field takes its new value, the others keep theirs. */
  lemma {:induction false} OverlayVals(r: Record, ks: seq<string>, src: map<string, Value>)
    requires r.Valid()
    requires forall k :: k in ks ==> k in src
    ensures Overlay(r, ks, src).vals == r.vals + Pick(src, ks)
    decreases |ks|
  {
    if ks == [] {
      assert Pick(src, ks) == map[];
    } else {
      var r1 := Set(r, ks[0], src[ks[0]]);
      assert Overlay(r, ks, src) == Overlay(r1, ks[1..], src);
      OverlayVals(r1, ks[1..], src);
      PickShift(r.vals, src, ks);
    }
  }

  lemma {:induction false} MissingIgnores(ks: seq<string>, present: set<string>, x: string)
    requires x !in ks
    ensures Missing(ks, present + {x}) == Missing(ks, present)
  {
    if ks != [] {
      MissingIgnores(ks[1..], present, x);
    }
  }

  lemma {:induction false} MissingShift(keys: seq<string>, present: set<string>, ks: seq<string>)
    requires ks != [] && ks[0] !in ks[1..]
    ensures (if ks[0] in present then keys else keys + [ks[0]]) + Missing(ks[1..], present + {ks[0]})
         == keys + Missing(ks, present)
  {
    var k, rest := ks[0], ks[1..];
    MissingIgnores(rest, present, k);
    var tail := Missing(rest, present);
    if k in present {
      assert Missing(ks, present) == tail;
    } else {
      assert Missing(ks, present) == [k] + tail;
      assert keys + [k] + tail == keys + ([k] + tail);
    }
  }

  /** Overlaying distinct keys appends the new ones in the order of `ks`. */
  lemma {:induction false} OverlayKeys(r: Record, ks: seq<string>, src: map<string, Value>)
    requires r.Valid()
    requires Distinct(ks)
    requires forall k :: k in ks ==> k in src
    ensures Overlay(r, ks, src).keys == r.keys + Missing(ks, r.vals.Keys)
    decreases |ks|
  {
    if ks != [] {
      var k0, rest := ks[0], ks[1..];
      var r1 := Set(r, k0, src[k0]);
      assert Overlay(r, ks, src) == Overlay(r1, rest, src);
      OverlayKeys(r1, rest, src);
      assert r1.keys == if k0 in r.vals then r.keys else r.keys + [k0];
      assert r1.vals.Keys == r.vals.Keys + {k0};
      MissingShift(r.keys, r.vals.Keys, ks);
    }
  }

  /**
   * `self.update(d)`: every field of `d` takes `d`'s value (whatever it is,
   * empty text included), every other field of `r` is unchanged, the existing
   * fields keep their places and `d`'s new fields follow in `d`'s order.
   */
  function Update(r: Record, d: Record): (u: Record)
    requires r.Valid() && d.Valid()
    ensures u.Valid()
    ensures u.vals == r.vals + d.vals
    ensures u.keys == r.keys + Missing(d.keys, r.vals.Keys)
  {
    KeySetMember(d.keys);
    assert Pick(d.vals, d.keys) == d.vals;
    OverlayVals(r, d.keys, d.vals);
    OverlayKeys(r, d.keys, d.vals);
    Overlay(r, d.keys, d.vals)
  }

  lemma {:induction false} MissingNone(ks: seq<string>, present: set<string>)
    requires forall k :: k in ks ==> k !in present
    ensures Missing(ks, present) == ks
  {
    if ks != [] {
      MissingNone(ks[1..], present);
    }
  }

  lemma {:induction false} MissingAll(ks: seq<string>, present: set<string>)
    requires forall k :: k in ks ==> k in present
    ensures Missing(ks, present) == []
  {
    if ks != [] {
      MissingAll(ks[1..], present);
    }
  }
}
