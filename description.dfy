/** tonuino_organizer/description.py: validation of the `description.yaml`
    record that says whether a folder is a static album or an RSS podcast,
    and the three accessors built on it. Reading and YAML parsing are left
    to the caller: the model starts from what `yaml.safe_load` produced. */
module Description {
  import opened Wrappers

  /** A value `yaml.safe_load` can produce. Mapping keys are strings. */
  datatype Yaml =
    | Null
    | Bool(b: bool)
    | Int(i: int)
    | Float(f: real)
    | Str(s: string)
    | List(items: seq<Yaml>)
    | Mapping(fields: map<string, Yaml>)

  /** What opening and parsing `description.yaml` gave. */
  datatype DescriptionFile =
    | Missing
    | InvalidYaml
    | Unreadable
    | Parsed(data: Yaml)

  /** The `DescriptionError`s, one per message of `load_description`. */
  datatype DescriptionError =
    | FileNotFound
    | YamlSyntax
    | ReadFailure
    | NotAMapping
    | MissingType
    | InvalidType(found: Yaml)
    | MissingFeedUrl
    | BadFeedUrl
    | MinDurationNotNumber
    | MinDurationNotPositive

  type Record = map<string, Yaml>

  const TypeKey := "type"
  const FeedUrlKey := "feed_url"
  const MinDurationKey := "min_duration"

  /** The default of `get_min_duration`'s `default` parameter. */
  const DefaultMinDuration: real := 60.0

  /** `isinstance(v, (int, float))`; a Python `bool` is an `int`. */
  predicate IsNumber(v: Yaml) {
    v.Bool? || v.Int? || v.Float?
  }

  /** The number a numeric YAML value stands for (`True == 1`). */
  function NumberValue(v: Yaml): real
    requires IsNumber(v)
  {
    match v
    case Bool(b) => if b then 1.0 else 0.0
    case Int(i) => i as real
    case Float(f) => f
  }

  predicate IsKnownType(v: Yaml) {
    v == Str("static") || v == Str("rss")
  }

  /** `data['feed_url']` is truthy and a `str`. */
  predicate IsNonEmptyString(v: Yaml) {
    v.Str? && v.s != []
  }

  /** Everything `load_description` demands of a record, stated as one
      condition rather than as a chain of checks. */
  predicate WellFormed(rec: Record) {
    && TypeKey in rec
    && IsKnownType(rec[TypeKey])
    && (rec[TypeKey] == Str("rss") ==> FeedUrlKey in rec && IsNonEmptyString(rec[FeedUrlKey]))
    && (MinDurationKey in rec ==> IsNumber(rec[MinDurationKey]) && NumberValue(rec[MinDurationKey]) > 0.0)
  }

  /** The min_duration check, run for both types. */
  function CheckMinDuration(rec: Record): (r: Option<DescriptionError>)
    ensures r.None? <==> (MinDurationKey in rec ==> IsNumber(rec[MinDurationKey]) && NumberValue(rec[MinDurationKey]) > 0.0)
    ensures r.Some? ==> r.value in {MinDurationNotNumber, MinDurationNotPositive}
  {
    if MinDurationKey !in rec then None
    else if !IsNumber(rec[MinDurationKey]) then Some(MinDurationNotNumber)
    else if NumberValue(rec[MinDurationKey]) <= 0.0 then Some(MinDurationNotPositive)
    else None
  }

  /** The chain of guards of `load_description` after parsing: mapping,
      `type` present, `type` known, `feed_url` for rss, `min_duration`. The
      first failing guard gives the error; a record that passes is returned
      as it is. */
  function Validate(data: Yaml): (r: Result<Record, DescriptionError>)
    ensures r.Ok? <==> data.Mapping? && WellFormed(data.fields)
    ensures r.Ok? ==> r.value == data.fields
  {
    if !data.Mapping? then Err(NotAMapping)
    else
      var rec := data.fields;
      if TypeKey !in rec then Err(MissingType)
      else if !IsKnownType(rec[TypeKey]) then Err(InvalidType(rec[TypeKey]))
      else if rec[TypeKey] == Str("rss") && FeedUrlKey !in rec then Err(MissingFeedUrl)
      else if rec[TypeKey] == Str("rss") && !IsNonEmptyString(rec[FeedUrlKey]) then Err(BadFeedUrl)
      else match CheckMinDuration(rec)
        case Some(e) => Err(e)
        case None => Ok(rec)
  }

  /** The checks run in order and the first failing one decides: each error
      is reported exactly when every earlier check passed and its own fails. */
  lemma FirstFailingCheck(data: Yaml)
    ensures Validate(data) == Err(NotAMapping) <==> !data.Mapping?
    ensures Validate(data) == Err(MissingType) <==> data.Mapping? && TypeKey !in data.fields
    ensures (Validate(data).Err? && Validate(data).error.InvalidType?) <==>
              data.Mapping? && TypeKey in data.fields && !IsKnownType(data.fields[TypeKey])
    ensures Validate(data) == Err(MissingFeedUrl) <==>
              data.Mapping? && TypeKey in data.fields && data.fields[TypeKey] == Str("rss")
              && FeedUrlKey !in data.fields
    ensures Validate(data) == Err(BadFeedUrl) <==>
              data.Mapping? && TypeKey in data.fields && data.fields[TypeKey] == Str("rss")
              && FeedUrlKey in data.fields && !IsNonEmptyString(data.fields[FeedUrlKey])
    ensures Validate(data) == Err(MinDurationNotNumber) <==>
              data.Mapping? && TypeKey in data.fields && IsKnownType(data.fields[TypeKey])
              && (data.fields[TypeKey] == Str("rss") ==> FeedUrlKey in data.fields && IsNonEmptyString(data.fields[FeedUrlKey]))
              && MinDurationKey in data.fields && !IsNumber(data.fields[MinDurationKey])
    ensures Validate(data) == Err(MinDurationNotPositive) <==>
              data.Mapping? && TypeKey in data.fields && IsKnownType(data.fields[TypeKey])
              && (data.fields[TypeKey] == Str("rss") ==> FeedUrlKey in data.fields && IsNonEmptyString(data.fields[FeedUrlKey]))
              && MinDurationKey in data.fields && IsNumber(data.fields[MinDurationKey])
              && NumberValue(data.fields[MinDurationKey]) <= 0.0
    ensures Validate(data).Err? ==> Validate(data).error !in {FileNotFound, YamlSyntax, ReadFailure}
  {
  }

  /** A static description places no constraint on `feed_url`: changing or
      removing it never changes whether the record is accepted. */
  lemma StaticIgnoresFeedUrl(rec: Record, v: Yaml)
    requires TypeKey in rec && rec[TypeKey] == Str("static")
    ensures Validate(Mapping(rec[FeedUrlKey := v])).Ok? == Validate(Mapping(rec)).Ok?
    ensures Validate(Mapping(rec - {FeedUrlKey})).Ok? == Validate(Mapping(rec)).Ok?
  {
    var r1 := rec[FeedUrlKey := v];
    var r2 := rec - {FeedUrlKey};
    assert TypeKey in r1 && r1[TypeKey] == Str("static");
    assert TypeKey in r2 && r2[TypeKey] == Str("static");
    assert (MinDurationKey in r1) == (MinDurationKey in rec);
    assert MinDurationKey in rec ==> r1[MinDurationKey] == rec[MinDurationKey];
    assert (MinDurationKey in r2) == (MinDurationKey in rec);
    assert MinDurationKey in rec ==> r2[MinDurationKey] == rec[MinDurationKey];
  }

  /** `load_description`: the file errors first, then the record checks. */
  function LoadDescription(file: DescriptionFile): (r: Result<Record, DescriptionError>)
    ensures r.Ok? ==> file.Parsed? && file.data == Mapping(r.value) && WellFormed(r.value)
    ensures file.Parsed? && file.data.Mapping? && WellFormed(file.data.fields) ==> r.Ok?
    ensures file.Missing? ==> r == Err(FileNotFound)
    ensures file.InvalidYaml? ==> r == Err(YamlSyntax)
    ensures file.Unreadable? ==> r == Err(ReadFailure)
  {
    match file
    case Missing => Err(FileNotFound)
    case InvalidYaml => Err(YamlSyntax)
    case Unreadable => Err(ReadFailure)
    case Parsed(data) => Validate(data)
  }

  /** `get_description_type`: always "static" or "rss" when it returns. */
  function GetDescriptionType(file: DescriptionFile): (r: Result<string, DescriptionError>)
    ensures r.Ok? <==> LoadDescription(file).Ok?
    ensures r.Ok? ==> (r.value == "static" || r.value == "rss")
                      && LoadDescription(file).value[TypeKey] == Str(r.value)
    ensures r.Err? ==> r.error == LoadDescription(file).error
  {
    match LoadDescription(file)
    case Err(e) => Err(e)
    case Ok(rec) => Ok(rec[TypeKey].s)
  }

  /** `get_feed_url`: `data.get('feed_url')`, None when the key is absent;
      for an rss description it is always a non-empty string. */
  function GetFeedUrl(file: DescriptionFile): (r: Result<Option<Yaml>, DescriptionError>)
    ensures r.Ok? <==> LoadDescription(file).Ok?
    ensures r.Ok? ==> (r.value.None? <==> FeedUrlKey !in LoadDescription(file).value)
    ensures r.Ok? && r.value.Some? ==> r.value.value == LoadDescription(file).value[FeedUrlKey]
    ensures r.Ok? && LoadDescription(file).value[TypeKey] == Str("rss") ==>
              r.value.Some? && IsNonEmptyString(r.value.value)
    ensures r.Err? ==> r.error == LoadDescription(file).error
  {
    match LoadDescription(file)
    case Err(e) => Err(e)
    case Ok(rec) => Ok(if FeedUrlKey in rec then Some(rec[FeedUrlKey]) else None)
  }

  /** `get_min_duration`: the stored value, which validation made a positive
      number, or `default` when the key is absent. */
  function GetMinDuration(file: DescriptionFile, default: real): (r: Result<real, DescriptionError>)
    ensures r.Ok? <==> LoadDescription(file).Ok?
    ensures r.Ok? && MinDurationKey !in LoadDescription(file).value ==> r.value == default
    ensures r.Ok? && MinDurationKey in LoadDescription(file).value ==>
              r.value > 0.0 && r.value == NumberValue(LoadDescription(file).value[MinDurationKey])
    ensures r.Err? ==> r.error == LoadDescription(file).error
  {
    match LoadDescription(file)
    case Err(e) => Err(e)
    case Ok(rec) => Ok(if MinDurationKey in rec then NumberValue(rec[MinDurationKey]) else default)
  }

  /** The records of tests/test_description.py and what the chain says of them. */
  lemma DescriptionExamples()
    ensures Validate(List([Str("item1"), Str("item2")])) == Err(NotAMapping)
    ensures Validate(Mapping(map[FeedUrlKey := Str("https://example.com/feed.xml")])) == Err(MissingType)
    ensures Validate(Mapping(map[TypeKey := Str("invalid")])) == Err(InvalidType(Str("invalid")))
    ensures Validate(Mapping(map[TypeKey := Str("rss")])) == Err(MissingFeedUrl)
    ensures Validate(Mapping(map[TypeKey := Str("rss"), FeedUrlKey := Null])) == Err(BadFeedUrl)
    ensures Validate(Mapping(map[TypeKey := Str("static"), MinDurationKey := Str("not a number")])) == Err(MinDurationNotNumber)
    ensures Validate(Mapping(map[TypeKey := Str("static"), MinDurationKey := Int(0)])) == Err(MinDurationNotPositive)
    ensures Validate(Mapping(map[TypeKey := Str("static"), MinDurationKey := Bool(true)])).Ok?
    ensures GetMinDuration(Parsed(Mapping(map[TypeKey := Str("static")])), 180.0) == Ok(180.0)
    ensures GetFeedUrl(Parsed(Mapping(map[TypeKey := Str("static")]))) == Ok(None)
  {
    assert "type" != "feed_url" && "type" != "min_duration" && "feed_url" != "min_duration";
  }
}
