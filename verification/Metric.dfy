/**
 * The `Metric` record (an ordered dict that always starts with `PropertyID`
 * and `Date`), its natural key, the rebuilding of records from stored
 * documents, and the metric collection as an in-memory store keyed by that
 * natural key (dwellingplace/models/metric.py).
 */
module Metrics {
  import opened Values
  import opened Records

  /**
   * The record the body of `Metric.__init__` lays out: `PropertyID` first,
   * `Date` second, then the keyword fields in their order.
   */
  function Arrange(propertyId: Value, date: Value, extra: Record): (m: Record)
    requires extra.Valid()
    requires PropertyIdField !in extra.vals && DateField !in extra.vals
    ensures m.Valid()
    ensures m.keys == [PropertyIdField, DateField] + extra.keys
    ensures m.vals == extra.vals[PropertyIdField := propertyId][DateField := date]
  {
    var m0 := KeyPair(propertyId, date);
    assert forall k | k in extra.keys :: k !in m0.vals.Keys by {
      KeySetMember(extra.keys);
    }
    MissingNone(extra.keys, m0.vals.Keys);
    PairThenExtra(propertyId, date, extra.vals);
    Update(m0, extra)
  }

  /** The record `{PropertyID: propertyId, Date: date}`. */
  function KeyPair(propertyId: Value, date: Value): (m: Record)
    ensures m.Valid()
    ensures m.keys == [PropertyIdField, DateField]
    ensures m.vals == map[PropertyIdField := propertyId, DateField := date]
  {
    KeyFieldsDiffer();
    Set(Set(Empty, PropertyIdField, propertyId), DateField, date)
  }

  lemma PairThenExtra(propertyId: Value, date: Value, extra: map<string, Value>)
    requires PropertyIdField !in extra && DateField !in extra
    ensures map[PropertyIdField := propertyId, DateField := date] + extra
            == extra[PropertyIdField := propertyId][DateField := date]
  {
  }

  /** The name of the instance parameter of `Metric.__init__`. */
  const SelfField: string := "self"

  /**
   * Whether the call `Metric(PropertyID=.., Date=.., **extra)` binds its
   * arguments: Python raises `TypeError` when `extra` names a parameter of
   * `__init__` (`self`, `PropertyID`, `Date`) a second time.
   */
  predicate Binds(extra: Record) {
    PropertyIdField !in extra.vals && DateField !in extra.vals && SelfField !in extra.vals
  }

  /**
   * `Metric(PropertyID, Date, **extra)`, a call whose arguments bind: a
   * `Metric` with the given key whose other fields are `extra`'s, in order.
   */
  function NewMetric(propertyId: Value, date: Value, extra: Record): (m: Record)
    requires extra.Valid() && Binds(extra)
    ensures IsMetric(m) && MetricKey(m) == Key(propertyId, date)
    ensures m.keys[2..] == extra.keys
    ensures forall f | f in extra.vals :: f in m.vals && m.vals[f] == extra.vals[f]
  {
    KeyFieldsDiffer();
    Arrange(propertyId, date, extra)
  }

  lemma KeyFieldsDiffer()
    ensures PropertyIdField != DateField
  {
    assert |PropertyIdField| != |DateField|;
  }

  /** A record laid out as a `Metric`: `PropertyID` first, `Date` second. */
  ghost predicate IsMetric(m: Record) {
    m.Valid() && |m.keys| >= 2 && m.keys[0] == PropertyIdField && m.keys[1] == DateField
  }

  /** The natural key, as the filter `{PropertyID: ..., Date: ...}`. */
  datatype Key = Key(propertyId: Value, date: Value)

  /**
   * The key a stored document answers to. A MongoDB equality filter on
   * `None` also matches a document that lacks the field, so a missing key
   * field reads as `Null`.
   */
  function DocKey(doc: Record): (k: Key)
    ensures k.propertyId == Get(doc, PropertyIdField, Null)
    ensures k.date == Get(doc, DateField, Null)
    ensures PropertyIdField !in doc.vals ==> k.propertyId == Null
    ensures DateField !in doc.vals ==> k.date == Null
  {
    Key(Get(doc, PropertyIdField, Null), Get(doc, DateField, Null))
  }

  /** `Metric.key`: the record's own `PropertyID` and `Date`; the filter it builds finds the record itself. */
  function MetricKey(m: Record): (k: Key)
    requires IsMetric(m)
    ensures DocKey(m) == k
  {
    KeySetMember(m.keys);
    assert m.keys[0] in m.keys && m.keys[1] in m.keys;
    Key(m.vals[PropertyIdField], m.vals[DateField])
  }

  /**
   * The body of the loop in `Metric.objects` (with `_id` already held apart):
   * pop `PropertyID` and `Date`, None when absent, and rebuild the record
   * with them in front, the remaining fields following in their order. The
   * call binds only for a document without a `self` field
   * (`FromDocumentBinds`); `Objects` raises on any other.
   */
  function FromDocument(doc: Record): (m: Record)
    requires doc.Valid()
    ensures IsMetric(m)
    ensures DocKey(doc) == MetricKey(m)
    ensures m.keys[2..] == Without(Without(doc.keys, PropertyIdField), DateField)
  {
    var pid := Pop(doc, PropertyIdField);
    var date := Pop(pid.1, DateField);
    var m := Arrange(pid.0, date.0, date.1);
    assert m.keys[2..] == date.1.keys;
    m
  }

  /** `cls(PropertyID=.., Date=.., **document)` binds exactly when the document has no `self` field. */
  lemma FromDocumentBinds(doc: Record)
    requires doc.Valid()
    ensures Binds(Pop(Pop(doc, PropertyIdField).1, DateField).1) <==> SelfField !in doc.vals
  {
    assert SelfField != PropertyIdField && SelfField != DateField by {
      assert SelfField[0] != PropertyIdField[0] && SelfField[0] != DateField[0];
    }
    var pid := Pop(doc, PropertyIdField);
    var date := Pop(pid.1, DateField);
    if SelfField in doc.vals {
      assert SelfField in pid.1.vals by {
        if PropertyIdField in doc.vals {
          assert pid.1.vals[PropertyIdField := pid.0] == doc.vals;
        } else {
          PopAbsent(doc, PropertyIdField);
        }
      }
      assert SelfField in date.1.vals by {
        if DateField in pid.1.vals {
          assert date.1.vals[DateField := date.0] == pid.1.vals;
        } else {
          PopAbsent(pid.1, DateField);
        }
      }
    }
  }

  /**
   * The fields of the rebuilt record: those of the document, with the two
   * key fields set to what the document holds for them (None when absent).
   */
  lemma FromDocumentVals(doc: Record)
    requires doc.Valid()
    ensures FromDocument(doc).vals
            == doc.vals[PropertyIdField := Get(doc, PropertyIdField, Null)][DateField := Get(doc, DateField, Null)]
  {
    KeyFieldsDiffer();
  }

  /** Reading back a stored `Metric` gives the same record, field order included. */
  lemma FromDocumentOfMetric(m: Record)
    requires IsMetric(m)
    ensures FromDocument(m) == m
  {
    var r := FromDocument(m);
    DistinctTailOf(m.keys);
    WithoutHead(m.keys);
    WithoutHead(m.keys[1..]);
    assert m.keys[1..][1..] == m.keys[2..];
    assert r.keys == [PropertyIdField, DateField] + m.keys[2..];
    assert m.keys == [PropertyIdField, DateField] + m.keys[2..];
    assert PropertyIdField in m.vals && DateField in m.vals by {
      KeySetMember(m.keys);
      assert m.keys[0] in m.keys && m.keys[1] in m.keys;
    }
    assert r.vals == m.vals;
  }

  /** A stored document: MongoDB's `_id` and the fields saved. */
  datatype Document = Document(id: nat, body: Record)

  /** The metric collection, keyed by natural key, and the next `_id` to hand out. */
  datatype StoreState = StoreState(docs: map<Key, Document>, nextId: nat)

  /**
   * At most one document per natural key: each document is filed under the
   * key its own fields answer to; `_id`s are distinct and already handed out.
   */
  ghost predicate StoreValid(s: StoreState) {
    && (forall k | k in s.docs :: s.docs[k].body.Valid() && DocKey(s.docs[k].body) == k && s.docs[k].id < s.nextId)
    && (forall k1, k2 | k1 in s.docs && k2 in s.docs && k1 != k2 :: s.docs[k1].id != s.docs[k2].id)
  }

  /**
   * `Metric.find(PropertyID=.., Date=..)`, which metric.py does not define:
   * assumed to return the stored document for the key, rebuilt as
   * `Metric.objects` rebuilds it, or a fresh `Metric(PropertyID, Date)`.
   */
  function FindIn(s: StoreState, k: Key): (m: Record)
    requires StoreValid(s)
    ensures IsMetric(m) && MetricKey(m) == k
  {
    if k in s.docs then FromDocument(s.docs[k].body) else NewMetric(k.propertyId, k.date, Empty)
  }

  /**
   * What `Metric.find` returns: the stored fields, the key fields set from
   * the key; for a key nothing is stored under, a record of the key alone.
   */
  lemma FindInFields(s: StoreState, k: Key)
    requires StoreValid(s)
    ensures k in s.docs ==> FindIn(s, k).vals == s.docs[k].body.vals[PropertyIdField := k.propertyId][DateField := k.date]
    ensures k !in s.docs ==> FindIn(s, k).keys == [PropertyIdField, DateField]
                             && FindIn(s, k).vals == map[PropertyIdField := k.propertyId, DateField := k.date]
  {
    if k in s.docs {
      FromDocumentVals(s.docs[k].body);
    }
  }

  /**
   * `Metric.save`: `replace_one(m.key, m, upsert=True)`. The document at the
   * record's key now holds the record (keeping its `_id`), or a new document
   * with a fresh `_id` is inserted; documents at other keys are unchanged.
   */
  function Saved(s: StoreState, m: Record): (s': StoreState)
    requires StoreValid(s) && IsMetric(m)
    ensures StoreValid(s')
    ensures s'.docs.Keys == s.docs.Keys + {MetricKey(m)}
    ensures s'.docs[MetricKey(m)].body == m
    ensures forall k | k in s.docs && k != MetricKey(m) :: s'.docs[k] == s.docs[k]
    ensures MetricKey(m) in s.docs ==> s'.docs[MetricKey(m)].id == s.docs[MetricKey(m)].id && s'.nextId == s.nextId
    ensures MetricKey(m) !in s.docs ==> s'.docs[MetricKey(m)].id !in (set k | k in s.docs :: s.docs[k].id)
  {
    var k := MetricKey(m);
    if k in s.docs then StoreState(s.docs[k := Document(s.docs[k].id, m)], s.nextId)
    else StoreState(s.docs[k := Document(s.nextId, m)], s.nextId + 1)
  }

  /** Saving the same record twice leaves the store as saving it once. */
  lemma SaveIdempotent(s: StoreState, m: Record)
    requires StoreValid(s) && IsMetric(m)
    ensures Saved(Saved(s, m), m) == Saved(s, m)
  {
  }

  /** The metric collection (`mongo.db.metric`), updated in place. */
  class MetricStore {
    var docs: map<Key, Document>
    var nextId: nat

    function State(): StoreState
      reads this
    {
      StoreState(docs, nextId)
    }

    ghost predicate Valid()
      reads this
    {
      StoreValid(State())
    }

    constructor ()
      ensures Valid() && docs == map[]
    {
      docs := map[];
      nextId := 0;
    }

    method Save(m: Record)
      requires Valid() && IsMetric(m)
      modifies this
      ensures Valid()
      ensures State() == Saved(old(State()), m)
    {
      var k := MetricKey(m);
      if k in docs {
        docs := docs[k := Document(docs[k].id, m)];
      } else {
        docs := docs[k := Document(nextId, m)];
        nextId := nextId + 1;
      }
    }

    method Find(k: Key) returns (m: Record)
      requires Valid()
      ensures m == FindIn(State(), k)
    {
      if k in docs {
        m := FromDocument(docs[k].body);
      } else {
        m := NewMetric(k.propertyId, k.date, Empty);
      }
    }

    /**
     * `Metric.objects()`: the stored documents in the order the scan visits
     * them (`order`, every key once), each rebuilt by `FromDocument`; at the
     * first document holding a `self` field the call raises `TypeError`
     * (`raised`), after yielding the records before it.
     */
    method Objects() returns (records: seq<Record>, order: seq<Key>, raised: bool)
      requires Valid()
      ensures |order| == |docs|
      ensures forall k | k in docs :: k in order
      ensures forall i | 0 <= i < |order| :: order[i] in docs
      ensures forall i, j | 0 <= i < j < |order| :: order[i] != order[j]
      ensures Listing(records, raised) == Rebuild(Visited(docs, order))
    {
      order := ListSet(docs.Keys);  // the scan order, which MongoDB leaves open
      assert |docs| == |docs.Keys|;
      records, raised := Scan(docs, order);
    }
  }

  /** What `Metric.objects` produces: the records yielded, and whether it then raised. */
  datatype Listing = Listing(records: seq<Record>, raised: bool)

  /** The bodies of the documents a scan visits, in the order `order` visits them. */
  function Visited(docs: map<Key, Document>, order: seq<Key>): (bodies: seq<Record>)
    requires forall i | 0 <= i < |order| :: order[i] in docs
    ensures |bodies| == |order|
    ensures forall i | 0 <= i < |order| :: bodies[i] == docs[order[i]].body
  {
    seq(|order|, i requires 0 <= i < |order| => docs[order[i]].body)
  }

  /**
   * The loop of `Metric.objects` over the documents in scan order: each is
   * rebuilt and yielded, until one holding a `self` field makes the call raise.
   */
  method Scan(docs: map<Key, Document>, order: seq<Key>) returns (records: seq<Record>, raised: bool)
    requires forall i | 0 <= i < |order| :: order[i] in docs
    requires forall k | k in docs :: docs[k].body.Valid()
    ensures Listing(records, raised) == Rebuild(Visited(docs, order))
  {
    ghost var bodies := Visited(docs, order);
    records := [];
    var n := 0;
    while n < |order|
      invariant n <= FirstSelf(bodies)
      invariant records == MapAll(FromDocument, bodies[..n])
    {
      var doc := docs[order[n]].body;
      assert doc == bodies[n];
      if SelfField in doc.vals {
        break;
      }
      MapAllSnoc(FromDocument, bodies, n);
      records := records + [FromDocument(doc)];
      n := n + 1;
    }
    raised := n < |order|;
  }

  /** The position of the first body holding a `self` field, or the number of bodies when none does. */
  function FirstSelf(bodies: seq<Record>): (n: nat)
    ensures n <= |bodies|
    ensures forall i | 0 <= i < n :: SelfField !in bodies[i].vals
    ensures n < |bodies| ==> SelfField in bodies[n].vals
  {
    if bodies == [] || SelfField in bodies[0].vals then 0
    else
      var n := 1 + FirstSelf(bodies[1..]);
      assert forall i | 1 <= i < n :: bodies[i] == bodies[1..][i - 1];
      n
  }

  /** `f` applied to each of `xs`, in order. */
  function MapAll(f: Record --> Record, xs: seq<Record>): (ys: seq<Record>)
    requires forall i | 0 <= i < |xs| :: f.requires(xs[i])
    ensures |ys| == |xs|
    ensures forall i | 0 <= i < |xs| :: ys[i] == f(xs[i])
  {
    seq(|xs|, i requires 0 <= i < |xs| => f(xs[i]))
  }

  lemma MapAllSnoc(f: Record --> Record, xs: seq<Record>, n: nat)
    requires forall i | 0 <= i < |xs| :: f.requires(xs[i])
    requires n < |xs|
    ensures MapAll(f, xs[..n + 1]) == MapAll(f, xs[..n]) + [f(xs[n])]
  {
  }

  /**
   * What `Metric.objects` produces from the documents it visits: the
   * documents before the first one holding a `self` field, rebuilt by
   * `FromDocument`, and whether the call then raised.
   */
  function Rebuild(bodies: seq<Record>): (l: Listing)
    requires forall i | 0 <= i < |bodies| :: bodies[i].Valid()
    ensures |l.records| <= |bodies|
    ensures forall i | 0 <= i < |l.records| :: SelfField !in bodies[i].vals
    ensures forall i | 0 <= i < |l.records| :: l.records[i] == FromDocument(bodies[i])
    ensures !l.raised ==> |l.records| == |bodies|
    ensures l.raised ==> |l.records| < |bodies| && SelfField in bodies[|l.records|].vals
  {
    var n := FirstSelf(bodies);
    Listing(MapAll(FromDocument, bodies[..n]), n < |bodies|)
  }

  /**
   * After `save`, `Metric.objects` either yields the saved metric exactly as
   * saved, or raises; it raises whenever the metric has a `self` field.
   */
  lemma SavedIsListed(s: StoreState, m: Record, order: seq<Key>)
    requires StoreValid(s) && IsMetric(m)
    requires forall j | 0 <= j < |order| :: order[j] in Saved(s, m).docs
    requires MetricKey(m) in order
    ensures !Rebuild(Visited(Saved(s, m).docs, order)).raised ==>
              exists i | 0 <= i < |order| :: Rebuild(Visited(Saved(s, m).docs, order)).records[i] == m
    ensures SelfField in m.vals ==> Rebuild(Visited(Saved(s, m).docs, order)).raised
  {
    var bodies := Visited(Saved(s, m).docs, order);
    var i :| 0 <= i < |order| && order[i] == MetricKey(m);
    assert bodies[i] == m;
    var l := Rebuild(bodies);
    if !l.raised {
      FromDocumentOfMetric(m);
      assert l.records[i] == m;
    }
  }
}
