/**
 * `merge_metrics_from_dicts` (dwellingplace/models/_utils.py): every parsed
 * row is merged into the stored metric with the same natural key (found, or
 * created empty), its fields overwriting, and the result saved back.
 */
module Merge {
  import opened Wrappers
  import opened Values
  import opened Records
  import opened Metrics

  /** A row without `PropertyID` or `Date` stops the merge with a `KeyError`. */
  datatype MergeError = MissingField(index: nat, field: string)

  /** The first key field the lookups `metric_dict['PropertyID']`, then `metric_dict['Date']`, fail on. */
  function MissingKeyField(d: Record): (f: Option<string>)
    ensures f == None <==> PropertyIdField in d.vals && DateField in d.vals
    ensures f.Some? ==> f.value !in d.vals
    ensures PropertyIdField !in d.vals ==> f == Some(PropertyIdField)
    ensures PropertyIdField in d.vals && DateField !in d.vals ==> f == Some(DateField)
  {
    if PropertyIdField !in d.vals then Some(PropertyIdField)
    else if DateField !in d.vals then Some(DateField)
    else None
  }

  /** A row the merge can file: a well-formed record holding both key fields. */
  ghost predicate IsRow(d: Record) {
    d.Valid() && PropertyIdField in d.vals && DateField in d.vals
  }

  ghost predicate AllRows(ds: seq<Record>) {
    forall i | 0 <= i < |ds| :: IsRow(ds[i])
  }

  /** The key the merge looks the row up by; a stored copy of the row answers to it. */
  function RowKey(d: Record): (k: Key)
    requires IsRow(d)
    ensures DocKey(d) == k
  {
    Key(d.vals[PropertyIdField], d.vals[DateField])
  }

  /** The keys of all rows. */
  function RowKeys(ds: seq<Record>): (keys: set<Key>)
    requires AllRows(ds)
    ensures forall i | 0 <= i < |ds| :: RowKey(ds[i]) in keys
    ensures forall k | k in keys :: exists i | 0 <= i < |ds| :: RowKey(ds[i]) == k
  {
    if ds == [] then {}
    else
      var keys := RowKeys(ds[..|ds| - 1]) + {RowKey(ds[|ds| - 1])};
      assert forall i | 0 <= i < |ds| - 1 :: ds[..|ds| - 1][i] == ds[i];
      keys
  }

  /** The rows with key `k`, in their order. */
  function RowsAt(ds: seq<Record>, k: Key): (xs: seq<Record>)
    requires AllRows(ds)
    ensures AllRows(xs)
    ensures forall i | 0 <= i < |xs| :: RowKey(xs[i]) == k
    ensures xs == [] <==> k !in RowKeys(ds)
  {
    if ds == [] then []
    else
      RowKeysSnoc(ds);
      var xs := RowsAt(ds[..|ds| - 1], k);
      if RowKey(ds[|ds| - 1]) == k then xs + [ds[|ds| - 1]] else xs
  }

  lemma RowKeysSnoc(ds: seq<Record>)
    requires AllRows(ds) && ds != []
    ensures AllRows(ds[..|ds| - 1])
    ensures RowKeys(ds) == RowKeys(ds[..|ds| - 1]) + {RowKey(ds[|ds| - 1])}
  {
    assert forall i | 0 <= i < |ds| - 1 :: ds[..|ds| - 1][i] == ds[i];
  }

  /** All the rows' fields, a later row's value winning. */
  function Union(xs: seq<Record>): map<string, Value> {
    if xs == [] then map[] else Union(xs[..|xs| - 1]) + xs[|xs| - 1].vals
  }

  lemma UnionAssoc(a: map<string, Value>, b: map<string, Value>, c: map<string, Value>)
    ensures (a + b) + c == a + (b + c)
  {
  }

  /** Setting fields that a later union overwrites makes no difference. */
  lemma Overwritten(a: map<string, Value>, x: Value, y: Value, u: map<string, Value>)
    requires PropertyIdField in u && DateField in u
    ensures a[PropertyIdField := x][DateField := y] + u == a + u
  {
  }

  /** A field's value in `Union` is the one the last row holding the field gives it. */
  lemma {:induction false} UnionLast(xs: seq<Record>, f: string, j: nat)
    requires j < |xs| && f in xs[j].vals
    requires forall i | j < i < |xs| :: f !in xs[i].vals
    ensures f in Union(xs) && Union(xs)[f] == xs[j].vals[f]
  {
    if j < |xs| - 1 {
      UnionLast(xs[..|xs| - 1], f, j);
    }
  }

  /** Every field of every row is in `Union`. */
  lemma {:induction false} UnionCovers(xs: seq<Record>, i: nat)
    requires i < |xs|
    ensures xs[i].vals.Keys <= Union(xs).Keys
  {
    if i < |xs| - 1 {
      UnionCovers(xs[..|xs| - 1], i);
    }
  }

  /** A record updated (`m.update(**row)`) by each of `xs` in turn. */
  function Absorb(r: Record, xs: seq<Record>): (u: Record)
    requires r.Valid()
    requires forall i | 0 <= i < |xs| :: xs[i].Valid()
    ensures u.Valid()
    ensures u.vals == r.vals + Union(xs)
    ensures r.keys <= u.keys
    decreases |xs|
  {
    if xs == [] then r
    else
      var p := Absorb(r, xs[..|xs| - 1]);
      UnionAssoc(r.vals, Union(xs[..|xs| - 1]), xs[|xs| - 1].vals);
      Update(p, xs[|xs| - 1])
  }

  /** Absorbing rows whose fields the record already has leaves its field order alone. */
  lemma {:induction false} AbsorbKeepsOrder(r: Record, xs: seq<Record>)
    requires r.Valid()
    requires forall i | 0 <= i < |xs| :: xs[i].Valid() && xs[i].vals.Keys <= r.vals.Keys
    ensures Absorb(r, xs).keys == r.keys
  {
    if xs != [] {
      var p := xs[..|xs| - 1];
      AbsorbKeepsOrder(r, p);
      var d := xs[|xs| - 1];
      KeySetMember(d.keys);
      MissingAll(d.keys, Absorb(r, p).vals.Keys);
    }
  }

  /** Absorbing the same rows a second time changes nothing. */
  lemma AbsorbTwice(r: Record, xs: seq<Record>)
    requires r.Valid()
    requires forall i | 0 <= i < |xs| :: xs[i].Valid()
    ensures Absorb(Absorb(r, xs), xs) == Absorb(r, xs)
  {
    var u := Absorb(r, xs);
    forall i | 0 <= i < |xs|
      ensures xs[i].vals.Keys <= u.vals.Keys
    {
      UnionCovers(xs, i);
    }
    AbsorbKeepsOrder(u, xs);
    assert u.vals + Union(xs) == u.vals;
  }

  /** A metric absorbing rows of its own key stays a metric with that key. */
  lemma AbsorbMetric(r: Record, xs: seq<Record>, k: Key)
    requires IsMetric(r) && MetricKey(r) == k
    requires AllRows(xs)
    requires forall i | 0 <= i < |xs| :: RowKey(xs[i]) == k
    ensures IsMetric(Absorb(r, xs)) && MetricKey(Absorb(r, xs)) == k
  {
    var u := Absorb(r, xs);
    assert u.keys[..2] == r.keys[..2];
    if xs != [] {
      var d := xs[|xs| - 1];
      assert u.vals[PropertyIdField] == d.vals[PropertyIdField];
      assert u.vals[DateField] == d.vals[DateField];
    }
  }

  /**
   * One pass of the loop: `Metric.find` by the row's key, `m.update(**row)`,
   * `m.save()`. Only the document at the row's key changes; an existing one
   * keeps its `_id`.
   */
  function MergeStep(s: StoreState, d: Record): (s': StoreState)
    requires StoreValid(s) && IsRow(d)
    ensures StoreValid(s')
    ensures s'.docs.Keys == s.docs.Keys + {RowKey(d)}
    ensures s'.docs[RowKey(d)].body == Update(FindIn(s, RowKey(d)), d)
    ensures forall k | k in s.docs && k != RowKey(d) :: s'.docs[k] == s.docs[k]
    ensures RowKey(d) in s.docs ==> s'.docs[RowKey(d)].id == s.docs[RowKey(d)].id && s'.nextId == s.nextId
  {
    var k := RowKey(d);
    var r := FindIn(s, k);
    assert [d][..0] == [];
    AbsorbMetric(r, [d], k);
    Saved(s, Update(r, d))
  }

  /** The store after merging the rows `ds` in order. */
  function Merged(s: StoreState, ds: seq<Record>): (s': StoreState)
    requires StoreValid(s) && AllRows(ds)
    ensures StoreValid(s')
    ensures s'.docs.Keys == s.docs.Keys + RowKeys(ds)
  {
    if ds == [] then s
    else
      assert AllRows(ds[..|ds| - 1]);
      MergeStep(Merged(s, ds[..|ds| - 1]), ds[|ds| - 1])
  }

  /**
   * What the merge leaves at one key: untouched when no row has the key;
   * otherwise the record `Metric.find` gave before the merge, updated by the
   * rows with that key in their order, under the `_id` it had.
   */
  lemma {:induction false} MergedAt(s: StoreState, ds: seq<Record>, k: Key)
    requires StoreValid(s) && AllRows(ds)
    ensures k !in RowKeys(ds) ==> (k in Merged(s, ds).docs <==> k in s.docs)
    ensures k !in RowKeys(ds) && k in s.docs ==> Merged(s, ds).docs[k] == s.docs[k]
    ensures k in RowKeys(ds) ==> k in Merged(s, ds).docs
                                 && Merged(s, ds).docs[k].body == Absorb(FindIn(s, k), RowsAt(ds, k))
    decreases |ds|, 1
  {
    if ds != [] {
      if RowKey(ds[|ds| - 1]) == k {
        MergedAtRowKey(s, ds, k);
      } else {
        MergedAtOtherKey(s, ds, k);
      }
    }
  }

  /** `MergedAt` when the last row has the key. */
  lemma {:induction false} MergedAtRowKey(s: StoreState, ds: seq<Record>, k: Key)
    requires StoreValid(s) && AllRows(ds)
    requires ds != [] && RowKey(ds[|ds| - 1]) == k
    ensures k in RowKeys(ds) && k in Merged(s, ds).docs
    ensures Merged(s, ds).docs[k].body == Absorb(FindIn(s, k), RowsAt(ds, k))
    decreases |ds|, 0
  {
    var p, d := ds[..|ds| - 1], ds[|ds| - 1];
    AllRowsPrefix(ds, |ds| - 1);
    MergedLast(s, ds);
    FindAfterMerge(s, p, k);
    RowsAtSnoc(ds, k);
    AbsorbSnoc(FindIn(s, k), RowsAt(p, k), d);
    assert k in RowKeys(ds);
  }

  /** The last step of `Merged`, at the last row's key. */
  lemma MergedLast(s: StoreState, ds: seq<Record>)
    requires StoreValid(s) && AllRows(ds) && ds != []
    ensures AllRows(ds[..|ds| - 1])
    ensures RowKey(ds[|ds| - 1]) in Merged(s, ds).docs
    ensures Merged(s, ds).docs[RowKey(ds[|ds| - 1])].body
            == Update(FindIn(Merged(s, ds[..|ds| - 1]), RowKey(ds[|ds| - 1])), ds[|ds| - 1])
  {
    AllRowsPrefix(ds, |ds| - 1);
  }

  /**
   * `Metric.find` after merging rows: the record found before, updated by
   * the rows with its key.
   */
  lemma {:induction false} FindAfterMerge(s: StoreState, ds: seq<Record>, k: Key)
    requires StoreValid(s) && AllRows(ds)
    ensures FindIn(Merged(s, ds), k) == Absorb(FindIn(s, k), RowsAt(ds, k))
    decreases |ds|, 2
  {
    var t := Merged(s, ds);
    var xs := RowsAt(ds, k);
    var r := FindIn(s, k);
    MergedAt(s, ds, k);
    if xs != [] {
      AbsorbMetric(r, xs, k);
      FromDocumentOfMetric(t.docs[k].body);
      assert FindIn(t, k) == t.docs[k].body;
    } else {
      assert Absorb(r, xs) == r;
      if k in s.docs {
        assert t.docs[k] == s.docs[k];
        assert FindIn(t, k) == FromDocument(s.docs[k].body);
      } else {
        assert k !in t.docs;
      }
    }
  }

  lemma AbsorbSnoc(r: Record, xs: seq<Record>, d: Record)
    requires r.Valid() && d.Valid()
    requires forall i | 0 <= i < |xs| :: xs[i].Valid()
    ensures Absorb(r, xs + [d]) == Update(Absorb(r, xs), d)
  {
    assert (xs + [d])[..|xs|] == xs;
  }

  /** `MergedAt` when the last row has another key. */
  lemma {:induction false} MergedAtOtherKey(s: StoreState, ds: seq<Record>, k: Key)
    requires StoreValid(s) && AllRows(ds)
    requires ds != [] && RowKey(ds[|ds| - 1]) != k
    ensures k !in RowKeys(ds) ==> (k in Merged(s, ds).docs <==> k in s.docs)
    ensures k !in RowKeys(ds) && k in s.docs ==> Merged(s, ds).docs[k] == s.docs[k]
    ensures k in RowKeys(ds) ==> k in Merged(s, ds).docs
                                 && Merged(s, ds).docs[k].body == Absorb(FindIn(s, k), RowsAt(ds, k))
    decreases |ds|, 0
  {
    var p := ds[..|ds| - 1];
    assert AllRows(p);
    var t := Merged(s, p);
    assert RowKeys(ds) == RowKeys(p) + {RowKey(ds[|ds| - 1])};
    assert k in t.docs ==> Merged(s, ds).docs[k] == t.docs[k];
    assert k in Merged(s, ds).docs <==> k in t.docs;
    if k in RowKeys(ds) {
      assert RowsAt(ds, k) == RowsAt(p, k);
      MergedAt(s, p, k);
    } else {
      MergedAt(s, p, k);
    }
  }

  /** A stored document keeps its `_id` through the merge. */
  lemma {:induction false} MergedKeepsId(s: StoreState, ds: seq<Record>, k: Key)
    requires StoreValid(s) && AllRows(ds)
    requires k in s.docs
    ensures k in Merged(s, ds).docs && Merged(s, ds).docs[k].id == s.docs[k].id
  {
    if ds != [] {
      var p := ds[..|ds| - 1];
      assert AllRows(p);
      MergedKeepsId(s, p, k);
    }
  }

  /** Merging rows whose keys are all stored hands out no new `_id`. */
  lemma {:induction false} MergedKeepsNextId(s: StoreState, ds: seq<Record>)
    requires StoreValid(s) && AllRows(ds)
    requires RowKeys(ds) <= s.docs.Keys
    ensures Merged(s, ds).nextId == s.nextId
  {
    if ds != [] {
      var p := ds[..|ds| - 1];
      assert AllRows(p);
      MergedKeepsNextId(s, p);
    }
  }

  /**
   * The fields stored at a key after the merge: those stored before (none
   * for a new key), overwritten by the rows with that key, a later row
   * winning. Every value a row carries overwrites, empty or not.
   */
  lemma MergedFields(s: StoreState, ds: seq<Record>, k: Key)
    requires StoreValid(s) && AllRows(ds)
    requires k in RowKeys(ds)
    ensures Merged(s, ds).docs[k].body.vals
            == (if k in s.docs then s.docs[k].body.vals else map[]) + Union(RowsAt(ds, k))
  {
    MergedAt(s, ds, k);
    var xs := RowsAt(ds, k);
    assert PropertyIdField in Union(xs) && DateField in Union(xs) by {
      UnionCovers(xs, |xs| - 1);
    }
    if k in s.docs {
      var b := s.docs[k].body;
      FromDocumentVals(b);
      Overwritten(b.vals, Get(b, PropertyIdField, Null), Get(b, DateField, Null), Union(xs));
    } else {
      Overwritten(map[], k.propertyId, k.date, Union(xs));
    }
  }

  /**
   * A field's merged value at a key is the one the last row with that key
   * holding the field gives it.
   */
  lemma MergedLastWriter(s: StoreState, ds: seq<Record>, j: nat, f: string)
    requires StoreValid(s) && AllRows(ds)
    requires j < |ds| && f in ds[j].vals
    requires forall i | j < i < |ds| && RowKey(ds[i]) == RowKey(ds[j]) :: f !in ds[i].vals
    ensures RowKey(ds[j]) in Merged(s, ds).docs
    ensures f in Merged(s, ds).docs[RowKey(ds[j])].body.vals
    ensures Merged(s, ds).docs[RowKey(ds[j])].body.vals[f] == ds[j].vals[f]
  {
    var k := RowKey(ds[j]);
    assert k in RowKeys(ds);
    MergedFields(s, ds, k);
    UnionRowsAtLast(ds, k, j, f);
  }

  /** `UnionLast` for the rows with one key. */
  lemma UnionRowsAtLast(ds: seq<Record>, k: Key, j: nat, f: string)
    requires AllRows(ds)
    requires j < |ds| && RowKey(ds[j]) == k && f in ds[j].vals
    requires forall i | j < i < |ds| && RowKey(ds[i]) == k :: f !in ds[i].vals
    ensures f in Union(RowsAt(ds, k)) && Union(RowsAt(ds, k))[f] == ds[j].vals[f]
  {
    UnionRowsAtLastUpTo(ds, k, j, f, |ds|);
    assert ds[..|ds|] == ds;
  }

  lemma {:induction false} UnionRowsAtLastUpTo(ds: seq<Record>, k: Key, j: nat, f: string, m: nat)
    requires AllRows(ds)
    requires j < m <= |ds| && RowKey(ds[j]) == k && f in ds[j].vals
    requires forall i | j < i < |ds| && RowKey(ds[i]) == k :: f !in ds[i].vals
    ensures AllRows(ds[..m])
    ensures f in Union(RowsAt(ds[..m], k)) && Union(RowsAt(ds[..m], k))[f] == ds[j].vals[f]
    decreases m
  {
    RowsAtSnocUpTo(ds, k, m);
    if j == m - 1 {
      assert Union(RowsAt(ds[..m], k)) == Union(RowsAt(ds[..m - 1], k)) + ds[j].vals;
    } else {
      UnionRowsAtLastUpTo(ds, k, j, f, m - 1);
      var u := Union(RowsAt(ds[..m - 1], k));
      assert f in u && u[f] == ds[j].vals[f];
      if RowKey(ds[m - 1]) == k {
        assert f !in ds[m - 1].vals;
        assert Union(RowsAt(ds[..m], k)) == u + ds[m - 1].vals;
      } else {
        assert RowsAt(ds[..m], k) == RowsAt(ds[..m - 1], k);
      }
    }
  }

  /** `RowsAtSnoc` for the first `m` rows. */
  lemma RowsAtSnocUpTo(ds: seq<Record>, k: Key, m: nat)
    requires AllRows(ds) && 0 < m <= |ds|
    ensures AllRows(ds[..m]) && AllRows(ds[..m - 1])
    ensures RowKey(ds[m - 1]) != k ==> RowsAt(ds[..m], k) == RowsAt(ds[..m - 1], k)
    ensures RowKey(ds[m - 1]) == k ==> Union(RowsAt(ds[..m], k)) == Union(RowsAt(ds[..m - 1], k)) + ds[m - 1].vals
  {
    AllRowsPrefix(ds, m);
    AllRowsPrefix(ds, m - 1);
    var q := ds[..m];
    assert q[..m - 1] == ds[..m - 1];
    assert q[m - 1] == ds[m - 1];
    RowsAtSnoc(q, k);
  }

  lemma AllRowsPrefix(ds: seq<Record>, m: nat)
    requires AllRows(ds) && m <= |ds|
    ensures AllRows(ds[..m])
  {
    assert forall i | 0 <= i < m :: ds[..m][i] == ds[i];
  }

  /** `RowsAt` over one more row. */
  lemma RowsAtSnoc(ds: seq<Record>, k: Key)
    requires AllRows(ds) && ds != []
    ensures RowsAt(ds, k) == RowsAt(ds[..|ds| - 1], k) + (if RowKey(ds[|ds| - 1]) == k then [ds[|ds| - 1]] else [])
    ensures RowKey(ds[|ds| - 1]) == k ==> Union(RowsAt(ds, k)) == Union(RowsAt(ds[..|ds| - 1], k)) + ds[|ds| - 1].vals
  {
    var xs := RowsAt(ds[..|ds| - 1], k);
    if RowKey(ds[|ds| - 1]) == k {
      assert (xs + [ds[|ds| - 1]])[..|xs|] == xs;
    } else {
      assert xs + [] == xs;
    }
  }

  /** Merging the same rows twice leaves the store as merging them once. */
  lemma MergeIdempotent(s: StoreState, ds: seq<Record>)
    requires StoreValid(s) && AllRows(ds)
    ensures Merged(Merged(s, ds), ds) == Merged(s, ds)
  {
    var t := Merged(s, ds);
    var t2 := Merged(t, ds);
    assert t2.docs == t.docs by {
      forall k | k in t.docs
        ensures k in t2.docs && t2.docs[k] == t.docs[k]
      {
        MergeIdempotentAt(s, ds, k);
      }
      assert t2.docs.Keys == t.docs.Keys;
    }
    MergedKeepsNextId(t, ds);
  }

  lemma MergeIdempotentAt(s: StoreState, ds: seq<Record>, k: Key)
    requires StoreValid(s) && AllRows(ds)
    requires k in Merged(s, ds).docs
    ensures k in Merged(Merged(s, ds), ds).docs
    ensures Merged(Merged(s, ds), ds).docs[k] == Merged(s, ds).docs[k]
  {
    var t := Merged(s, ds);
    MergedAt(t, ds, k);
    MergedKeepsId(t, ds, k);
    if k in RowKeys(ds) {
      MergedAt(s, ds, k);
      var xs := RowsAt(ds, k);
      AbsorbMetric(FindIn(s, k), xs, k);
      FromDocumentOfMetric(t.docs[k].body);
      AbsorbTwice(FindIn(s, k), xs);
    }
  }

  lemma AllRowsSnoc(ds: seq<Record>, i: nat)
    requires i < |ds| && AllRows(ds[..i]) && IsRow(ds[i])
    ensures AllRows(ds[..i + 1])
  {
    assert forall j | 0 <= j < i :: ds[..i + 1][j] == ds[..i][j];
  }

  /** Merging one more row is one more `MergeStep`. */
  lemma MergedSnoc(s: StoreState, ds: seq<Record>, i: nat)
    requires StoreValid(s) && i < |ds| && AllRows(ds[..i + 1])
    ensures AllRows(ds[..i]) && IsRow(ds[i])
    ensures Merged(s, ds[..i + 1]) == MergeStep(Merged(s, ds[..i]), ds[i])
  {
    assert ds[..i + 1][..i] == ds[..i];
    assert ds[..i + 1][i] == ds[i];
  }

  /** One merge step is `find`, `update`, then `save`. */
  lemma MergeStepSaved(t: StoreState, d: Record)
    requires StoreValid(t) && IsRow(d)
    ensures IsMetric(Update(FindIn(t, RowKey(d)), d))
    ensures Saved(t, Update(FindIn(t, RowKey(d)), d)) == MergeStep(t, d)
  {
    AbsorbMetric(FindIn(t, RowKey(d)), [d], RowKey(d));
    assert [d][..0] == [];
  }

  /**
   * `merge_metrics_from_dicts` over the rows `ds`: each row is merged in
   * turn; the first row lacking a key field stops the loop, the rows before
   * it having been saved.
   */
  method MergeMetrics(store: MetricStore, ds: seq<Record>) returns (err: Option<MergeError>)
    requires store.Valid()
    requires forall i | 0 <= i < |ds| :: ds[i].Valid()
    modifies store
    ensures store.Valid()
    ensures err == None ==> AllRows(ds) && store.State() == Merged(old(store.State()), ds)
    ensures err.Some? ==> && err.value.index < |ds|
                          && MissingKeyField(ds[err.value.index]) == Some(err.value.field)
                          && AllRows(ds[..err.value.index])
                          && store.State() == Merged(old(store.State()), ds[..err.value.index])
  {
    var i := 0;
    while i < |ds|
      invariant i <= |ds|
      invariant store.Valid()
      invariant AllRows(ds[..i])
      invariant store.State() == Merged(old(store.State()), ds[..i])
    {
      var d := ds[i];
      var missing := MissingKeyField(d);
      if missing.Some? {
        return Some(MissingField(i, missing.value));
      }
      ghost var t := store.State();
      var m := store.Find(RowKey(d));
      MergeStepSaved(t, d);
      store.Save(Update(m, d));
      AllRowsSnoc(ds, i);
      MergedSnoc(old(store.State()), ds, i);
      i := i + 1;
    }
    assert ds[..i] == ds;
    return None;
  }
}
