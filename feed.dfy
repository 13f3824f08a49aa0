/**
 * The feed snapshot as Python's JSON decoder presents the downloaded file,
 * and the set of RECORDIDs main() collects from it: one id per feature, read
 * from the feature's "properties" object. A missing key raises KeyError and
 * indexing a value that is not an object raises TypeError; the first
 * feature, in list order, whose lookup fails decides which is raised.
 */
module Feed {
  import opened Wrappers

  /** A JSON value held by a feature property that the model reads. */
  datatype Property = JsonNull | JsonString(s: string)

  /** The value of a feature's "properties" key: an object, or any other JSON value. */
  datatype Properties = NonObjectProperties | Props(fields: map<string, Property>)

  /**
   * One item of the feature list: a value that is not an object (null, a
   * number, a boolean, a string, an array), or an object whose "properties" key may be
   * absent (None).
   */
  datatype Feature = NonObjectFeature | Feature(properties: Option<Properties>)

  /**
   * The value of the "features" key. Iterating null, a number or a boolean
   * raises TypeError (NotIterable). An array gives its items. A string or an
   * object also iterates, yielding strings (its characters or its keys); it
   * is written as Items of that many NonObjectFeature.
   */
  datatype FeatureList = NotIterable | Items(items: seq<Feature>)

  /** The parsed file: not JSON, JSON that is not an object, or an object whose "features" key may be absent. */
  datatype Document = Malformed | NonObjectDocument | Object(features: Option<FeatureList>)

  /** A RECORDID as it is bound into the archive statement: None becomes SQL NULL. */
  datatype FeedId = NullId | Id(s: string)

  /** The exception that aborts main() while the ids are collected. */
  datatype Failure = JsonDecodeError | KeyError(key: string) | TypeError

  const RecordIdKey: string := "RECORDID"

  /** The RECORDID property of one feature, or the exception its lookup raises. */
  function RecordIdOf(f: Feature): (r: Result<FeedId, Failure>)
    ensures r.Ok? <==>
      f.Feature? && f.properties.Some? && f.properties.value.Props? && RecordIdKey in f.properties.value.fields
    ensures r == Err(KeyError("properties")) <==> f.Feature? && f.properties.None?
    ensures r == Err(TypeError) <==>
      f.NonObjectFeature? || (f.properties.Some? && f.properties.value.NonObjectProperties?)
    ensures f.Feature? && f.properties.Some? && f.properties.value.Props? && RecordIdKey !in f.properties.value.fields
      ==> r == Err(KeyError(RecordIdKey))
    ensures r.Ok? ==> (r.value == NullId <==> f.properties.value.fields[RecordIdKey] == JsonNull)
    ensures r.Ok? && r.value.Id? ==> f.properties.value.fields[RecordIdKey] == JsonString(r.value.s)
  {
    match f
    case NonObjectFeature => Err(TypeError)
    case Feature(None) => Err(KeyError("properties"))
    case Feature(Some(NonObjectProperties)) => Err(TypeError)
    case Feature(Some(Props(fields))) =>
      if RecordIdKey !in fields then Err(KeyError(RecordIdKey))
      else match fields[RecordIdKey]
        case JsonNull => Ok(NullId)
        case JsonString(s) => Ok(Id(s))
  }

  /** The set comprehension over a feature list, in iteration order. */
  function FeedIds(features: seq<Feature>): (r: Result<set<FeedId>, Failure>)
    ensures r.Ok? <==> forall i | 0 <= i < |features| :: RecordIdOf(features[i]).Ok?
    ensures r.Ok? ==> forall id :: id in r.value <==> exists f | f in features :: RecordIdOf(f) == Ok(id)
    ensures r.Err? ==> exists i | 0 <= i < |features| ::
      RecordIdOf(features[i]) == Err(r.error) && forall j | 0 <= j < i :: RecordIdOf(features[j]).Ok?
  {
    if features == [] then Ok({})
    else
      match RecordIdOf(features[0])
      case Err(e) => Err(e)
      case Ok(id) =>
        match FeedIds(features[1..])
        case Err(e) => Err(e)
        case Ok(rest) => Ok({id} + rest)
  }

  /** current_ids, or the exception decoding or a lookup raises. */
  function ExtractIds(doc: Document): (r: Result<set<FeedId>, Failure>)
    ensures doc.Malformed? ==> r == Err(JsonDecodeError)
    ensures doc.NonObjectDocument? ==> r == Err(TypeError)
    ensures doc.Object? && doc.features.None? ==> r == Err(KeyError("features"))
    ensures doc.Object? && doc.features == Some(NotIterable) ==> r == Err(TypeError)
    ensures doc.Object? && doc.features.Some? && doc.features.value.Items? ==> r == FeedIds(doc.features.value.items)
  {
    match doc
    case Malformed => Err(JsonDecodeError)
    case NonObjectDocument => Err(TypeError)
    case Object(features) =>
      match features
      case None => Err(KeyError("features"))
      case Some(NotIterable) => Err(TypeError)
      case Some(Items(fs)) => FeedIds(fs)
  }

  /** The id set depends only on which features occur: not on their order, not on repeats. */
  lemma FeedIdsIgnoreOrder(a: seq<Feature>, b: seq<Feature>)
    requires forall f :: f in a <==> f in b
    ensures FeedIds(a).Ok? <==> FeedIds(b).Ok?
    ensures FeedIds(a).Ok? ==> FeedIds(a).value == FeedIds(b).value
  {
    if FeedIds(b).Ok? {
      LookupsSucceedOnSubset(a, b);
    }
    if FeedIds(a).Ok? {
      LookupsSucceedOnSubset(b, a);
    }
  }

  lemma LookupsSucceedOnSubset(a: seq<Feature>, b: seq<Feature>)
    requires forall f :: f in a ==> f in b
    requires forall i | 0 <= i < |b| :: RecordIdOf(b[i]).Ok?
    ensures forall i | 0 <= i < |a| :: RecordIdOf(a[i]).Ok?
  {
    forall i | 0 <= i < |a|
      ensures RecordIdOf(a[i]).Ok?
    {
      assert a[i] in b;
    }
  }

  /** An empty feature list yields the empty id set: there is no guard against it. */
  lemma EmptyFeatureListGivesNoIds()
    ensures ExtractIds(Object(Some(Items([])))) == Ok({})
  {
  }
}
