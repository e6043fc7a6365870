/** The key-submission handler's record rule: the JSON schema the body must
    satisfy, and the `state` field it stamps before storing the record. */
module KeyIntake {
  import opened Wrappers

  /** A parsed JSON value. */
  datatype Json =
    | JNull
    | JBool(b: bool)
    | JNumber(n: real)
    | JString(s: string)
    | JArray(items: seq<Json>)
    | JObject(fields: map<string, Json>)

  /** The JSON types a schema property can demand. */
  datatype JsonType = NullType | BooleanType | NumberType | StringType | ArrayType | ObjectType

  predicate HasType(v: Json, t: JsonType)
  {
    match t
    case NullType => v.JNull?
    case BooleanType => v.JBool?
    case NumberType => v.JNumber?
    case StringType => v.JString?
    case ArrayType => v.JArray?
    case ObjectType => v.JObject?
  }

  /** An object schema: typed properties, the required names, and whether
      names outside `properties` are allowed. */
  datatype ObjectSchema = ObjectSchema(properties: map<string, JsonType>, required: set<string>, additionalProperties: bool)

  /** What a validator compiled from `schema` accepts for an object body. */
  predicate Validates(schema: ObjectSchema, doc: map<string, Json>)
  {
    && (forall name :: name in schema.required ==> name in doc)
    && (forall name :: name in doc && name in schema.properties ==> HasType(doc[name], schema.properties[name]))
    && (schema.additionalProperties || forall name :: name in doc ==> name in schema.properties)
  }

  /** The schema declared for key records. */
  const KeySchema: ObjectSchema := ObjectSchema(
    map["key" := StringType, "cksum" := StringType, "state" := StringType,
        "MAC" := StringType, "timestamp" := StringType, "version" := StringType],
    {"key", "cksum", "MAC"},
    false)

  const DeclaredFields: set<string> := {"key", "cksum", "state", "MAC", "timestamp", "version"}
  const RequiredFields: set<string> := {"key", "cksum", "MAC"}

  /** The lifecycle value every stored key starts in. */
  const Unclaimed: string := "unclaimed"

  /** `key_validate(doc)`: the schema-driven check, which accepts exactly the
      records that carry `key`, `cksum` and `MAC`, declare no other field, and
      hold a string in every field. */
  function KeyValidate(doc: map<string, Json>): (valid: bool)
    ensures valid <==>
      && RequiredFields <= doc.Keys
      && doc.Keys <= DeclaredFields
      && forall name :: name in doc ==> doc[name].JString?
  {
    assert KeySchema.properties.Keys == DeclaredFields;
    Validates(KeySchema, doc)
  }

  /** `doc.state = "unclaimed"`: sets `state` whatever it held and leaves
      every other field alone. */
  function Stamp(doc: map<string, Json>): (stamped: map<string, Json>)
    ensures stamped.Keys == doc.Keys + {"state"}
    ensures stamped["state"] == JString(Unclaimed)
    ensures forall name :: name in doc && name != "state" ==> stamped[name] == doc[name]
  {
    doc["state" := JString(Unclaimed)]
  }

  /** What the handler does with a POSTed object body. */
  datatype KeyOutcome = Stored(record: map<string, Json>) | Rejected

  /** Validate the body as received, then stamp it, then store it only if the
      validation passed. */
  function SaveKey(doc: map<string, Json>): (r: KeyOutcome)
    ensures r.Stored? <==>
      && RequiredFields <= doc.Keys
      && doc.Keys <= DeclaredFields
      && forall name :: name in doc ==> doc[name].JString?
    ensures r.Stored? ==> r.record.Keys == doc.Keys + {"state"}
    ensures r.Stored? ==> r.record["state"] == JString(Unclaimed)
    ensures r.Stored? ==> forall name :: name in doc && name != "state" ==> r.record[name] == doc[name]
    ensures r.Stored? ==> KeyValidate(r.record)
  {
    var isValid := KeyValidate(doc);
    var stamped := Stamp(doc);
    if isValid then Stored(stamped) else Rejected
  }

  /** Stamping keeps a valid record valid: `state` is a declared string field. */
  lemma StampKeepsValidity(doc: map<string, Json>)
    requires KeyValidate(doc)
    ensures KeyValidate(Stamp(doc))
  {
  }

  /** Validation looks at the body before stamping: a `state` that is not a
      string gets the record rejected although the stamped record would pass. */
  lemma ValidatedBeforeStamping()
    ensures
      var doc := map["key" := JString("k"), "cksum" := JString("1"), "MAC" := JString("m"), "state" := JNumber(1.0)];
      SaveKey(doc) == Rejected && KeyValidate(Stamp(doc))
  {
    var doc := map["key" := JString("k"), "cksum" := JString("1"), "MAC" := JString("m"), "state" := JNumber(1.0)];
    assert !doc["state"].JString?;
  }

  /** A key submission in typed form. */
  datatype KeyRecord = KeyRecord(
    key: string, cksum: string, mac: string,
    state: Option<string>, timestamp: Option<string>, version: Option<string>)

  /** The value a typed record holds for a declared field name. */
  function FieldOf(rec: KeyRecord, name: string): Option<string>
  {
    if name == "key" then Some(rec.key)
    else if name == "cksum" then Some(rec.cksum)
    else if name == "MAC" then Some(rec.mac)
    else if name == "state" then rec.state
    else if name == "timestamp" then rec.timestamp
    else if name == "version" then rec.version
    else None
  }

  /** The JSON object a typed record is sent as; it always passes the schema. */
  function ToFields(rec: KeyRecord): (doc: map<string, Json>)
    ensures KeyValidate(doc)
  {
    map name | name in DeclaredFields && FieldOf(rec, name).Some? :: JString(FieldOf(rec, name).value)
  }

  function StringField(doc: map<string, Json>, name: string): Option<string>
  {
    if name in doc && doc[name].JString? then Some(doc[name].s) else None
  }

  /** The typed reading of a body, present exactly when the schema accepts it. */
  function ParseKeyRecord(doc: map<string, Json>): (r: Option<KeyRecord>)
    ensures r.Some? <==> KeyValidate(doc)
  {
    if !KeyValidate(doc) then None
    else Some(KeyRecord(doc["key"].s, doc["cksum"].s, doc["MAC"].s,
                        StringField(doc, "state"), StringField(doc, "timestamp"), StringField(doc, "version")))
  }

  lemma ParseToFields(rec: KeyRecord)
    ensures ParseKeyRecord(ToFields(rec)) == Some(rec)
  {
  }

  lemma ToFieldsParse(doc: map<string, Json>)
    requires KeyValidate(doc)
    ensures ToFields(ParseKeyRecord(doc).value) == doc
  {
    var rec := ParseKeyRecord(doc).value;
    var back := ToFields(rec);
    forall name | name in doc
      ensures name in back && back[name] == doc[name]
    {
      ParsedField(doc, name);
    }
    forall name | name in back
      ensures name in doc
    {
      ParsedField(doc, name);
    }
  }

  /** Each field of the typed reading holds what the body held. */
  lemma ParsedField(doc: map<string, Json>, name: string)
    requires KeyValidate(doc)
    ensures FieldOf(ParseKeyRecord(doc).value, name) == StringField(doc, name)
  {
  }
}
