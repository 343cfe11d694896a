/** Injection of the common metadata fields into a parsed Avro schema
    (inject_metadata_fields and COMMON_METADATA_FIELDS of load_schemas.py). */
module MetadataInjection {
  import opened Json

  /** One metadata field record. Only its name takes part in a decision; its Avro
      type is carried along as payload, and every one of them defaults to null. */
  datatype MetaField = MetaField(name: string, avroType: Value) {
    /** The field record as it is appended to a schema's `fields` list. */
    function ToJson(): Value {
      JObject(map["name" := JString(name), "type" := avroType, "default" := JNull])
    }
  }

  const NULLABLE_TIMESTAMP_MILLIS: Value :=
    JArray([JString("null"), JObject(map["type" := JString("long"), "logicalType" := JString("timestamp-millis")])])

  const NULLABLE_STRING: Value := JArray([JString("null"), JString("string")])

  /** The four metadata fields, in their canonical order. */
  const COMMON_METADATA_FIELDS: seq<MetaField> := [
    MetaField("first_seen_date", NULLABLE_TIMESTAMP_MILLIS),
    MetaField("ingestion_date", NULLABLE_TIMESTAMP_MILLIS),
    MetaField("transformation_date", NULLABLE_TIMESTAMP_MILLIS),
    MetaField("source_system", NULLABLE_STRING)
  ]

  const INVALID_FIELDS_MESSAGE: string := "Schema does not contain a valid 'fields' array"

  /** The guard of the injection: the schema's `fields` list, or the exception
      Python raises on the way. A dict without a list under `fields` fails the
      guard with a ValueError; a document that is not a dict fails either the
      `in` test (numbers, booleans, null) or the lookup that follows it. */
  function FieldsArray(schema: Value): (r: Result<seq<Value>>)
    ensures r.Ok? <==> schema.JObject? && "fields" in schema.members && schema.members["fields"].JArray?
    ensures r.Ok? ==> r.value == schema.members["fields"].items
    ensures schema.JObject? && r.Err? ==> r.error == ValueError(INVALID_FIELDS_MESSAGE)
  {
    match schema
    case JObject(m) =>
      if "fields" in m && m["fields"].JArray? then Ok(m["fields"].items)
      else Err(ValueError(INVALID_FIELDS_MESSAGE))
    case JArray(items) =>
      // `in` on a list tests its elements; indexing a list by a string raises
      if JString("fields") in items then Err(TypeError) else Err(ValueError(INVALID_FIELDS_MESSAGE))
    case JString(s) =>
      // `in` on a string tests for a substring; indexing a string by a string raises
      if ContainsSubstring(s, "fields") then Err(TypeError) else Err(ValueError(INVALID_FIELDS_MESSAGE))
    case _ =>
      Err(TypeError)
  }

  /** `field["name"]`, then adding it to a set: a field that is not a dict, or
      whose name is a list or a dict, raises TypeError; a dict without `name`
      raises KeyError. */
  function FieldName(field: Value): (r: Result<Value>)
    ensures r.Ok? <==> field.JObject? && "name" in field.members && Hashable(field.members["name"])
    ensures r.Ok? ==> r.value == field.members["name"]
    ensures r.Err? ==> r.error == (if field.JObject? && "name" !in field.members then KeyError("name") else TypeError)
  {
    match field
    case JObject(m) =>
      if "name" !in m then Err(KeyError("name"))
      else if !Hashable(m["name"]) then Err(TypeError)
      else Ok(m["name"])
    case _ =>
      Err(TypeError)
  }

  /** The set of names already present, built left to right: the first field
      whose name cannot be taken decides the exception. */
  function FieldNames(fields: seq<Value>): (r: Result<set<Value>>)
    ensures r.Ok? <==> forall i :: 0 <= i < |fields| ==> FieldName(fields[i]).Ok?
    ensures r.Err? ==> exists i :: 0 <= i < |fields| && FieldName(fields[i]) == Err(r.error) &&
                                   forall j :: 0 <= j < i ==> FieldName(fields[j]).Ok?
  {
    if fields == [] then Ok({})
    else
      match FieldName(fields[0])
      case Err(e) => Err(e)
      case Ok(n) =>
        match FieldNames(fields[1..])
        case Err(e) => Err(e)
        case Ok(rest) => Ok({n} + rest)
  }

  /** The fields of `metas`, in their order, whose name is not in `names`: what
      the loop of the injection appends. */
  function Missing(names: set<Value>, metas: seq<MetaField>): (r: seq<Value>)
    ensures |r| <= |metas|
    ensures forall v :: v in r ==>
              exists k :: 0 <= k < |metas| && JString(metas[k].name) !in names && v == metas[k].ToJson()
  {
    if metas == [] then []
    else
      var last := metas[|metas| - 1];
      Missing(names, metas[..|metas| - 1]) + (if JString(last.name) in names then [] else [last.ToJson()])
  }

  /** Extending the metadata list by one field extends what is appended by
      that field exactly when its name is absent. */
  lemma MissingStep(names: set<Value>, metas: seq<MetaField>, i: nat)
    requires i < |metas|
    ensures Missing(names, metas[..i + 1]) ==
              Missing(names, metas[..i]) + if JString(metas[i].name) in names then [] else [metas[i].ToJson()]
  {
    assert metas[..i + 1][..i] == metas[..i];
  }

  /** The positions in `metas` of the fields whose name is not in `names`, ascending. */
  ghost function AbsentIndices(names: set<Value>, metas: seq<MetaField>): seq<nat> {
    if metas == [] then []
    else
      var n := |metas| - 1;
      AbsentIndices(names, metas[..n]) + (if JString(metas[n].name) in names then [] else [n])
  }

  /** The names in `metas` that are not in `names`. */
  ghost function AbsentNames(names: set<Value>, metas: seq<MetaField>): set<string> {
    set k | 0 <= k < |metas| && JString(metas[k].name) !in names :: metas[k].name
  }

  ghost predicate DistinctNames(metas: seq<MetaField>) {
    forall i, j :: 0 <= i < j < |metas| ==> metas[i].name != metas[j].name
  }

  /** The injection on values: the schema with the absent metadata fields
      appended to its `fields` list, or the exception raised before anything
      is appended. */
  function Injected(schema: Value): (r: Result<Value>)
    ensures FieldsArray(schema).Err? ==> r == Err(FieldsArray(schema).error)
    ensures FieldsArray(schema).Ok? && FieldNames(FieldsArray(schema).value).Err? ==>
              r == Err(FieldNames(FieldsArray(schema).value).error)
    ensures r.Ok? ==> r.value.JObject? && r.value.members.Keys == schema.members.Keys &&
                      forall key :: key in schema.members && key != "fields" ==> r.value.members[key] == schema.members[key]
  {
    match FieldsArray(schema)
    case Err(e) => Err(e)
    case Ok(fields) =>
      match FieldNames(fields)
      case Err(e) => Err(e)
      case Ok(names) =>
        Ok(JObject(schema.members["fields" := JArray(fields + Missing(names, COMMON_METADATA_FIELDS))]))
  }

  /** inject_metadata_fields: checks the `fields` list, collects the names
      present, then walks the metadata fields in order and appends each one
      whose name was not among them. */
  method InjectMetadataFields(schema: Value) returns (r: Result<Value>)
    ensures r == Injected(schema)
  {
    var checked := FieldsArray(schema);
    if checked.Err? {
      return Err(checked.error);
    }
    var existing := FieldNames(checked.value);
    if existing.Err? {
      return Err(existing.error);
    }
    var fields := checked.value;
    for i := 0 to |COMMON_METADATA_FIELDS|
      invariant fields == checked.value + Missing(existing.value, COMMON_METADATA_FIELDS[..i])
    {
      var meta := COMMON_METADATA_FIELDS[i];
      MissingStep(existing.value, COMMON_METADATA_FIELDS, i);
      if JString(meta.name) !in existing.value {
        fields := fields + [meta.ToJson()];
      }
    }
    assert COMMON_METADATA_FIELDS[..|COMMON_METADATA_FIELDS|] == COMMON_METADATA_FIELDS;
    r := Ok(JObject(schema.members["fields" := JArray(fields)]));
  }

  // ---------------------------------------------------------------------------
  // Properties of Missing

  /** The absent positions are in range and ascending. */
  lemma {:induction false} AbsentIndicesAscending(names: set<Value>, metas: seq<MetaField>)
    ensures forall i :: 0 <= i < |AbsentIndices(names, metas)| ==> AbsentIndices(names, metas)[i] < |metas|
    ensures forall i, j :: 0 <= i < j < |AbsentIndices(names, metas)| ==>
              AbsentIndices(names, metas)[i] < AbsentIndices(names, metas)[j]
  {
    if metas != [] {
      var n := |metas| - 1;
      AbsentIndicesAscending(names, metas[..n]);
      var idx := AbsentIndices(names, metas[..n]);
      assert forall i :: 0 <= i < |idx| ==> idx[i] < n;
      if JString(metas[n].name) in names {
        assert AbsentIndices(names, metas) == idx;
      } else {
        var all := idx + [n];
        assert AbsentIndices(names, metas) == all;
        assert forall i :: 0 <= i < |all| ==> all[i] <= n;
      }
    }
  }

  /** A position is listed exactly when the name there is absent. */
  lemma {:induction false} AbsentIndicesExact(names: set<Value>, metas: seq<MetaField>)
    ensures forall k :: 0 <= k < |metas| ==>
              (k in AbsentIndices(names, metas) <==> JString(metas[k].name) !in names)
  {
    if metas != [] {
      var n := |metas| - 1;
      var prefix := metas[..n];
      AbsentIndicesExact(names, prefix);
      AbsentIndicesAscending(names, prefix);
      assert n !in AbsentIndices(names, prefix);
      forall k | 0 <= k < n
        ensures prefix[k] == metas[k]
      {
      }
    }
  }

  /** The i-th missing field is the field at the i-th absent position. */
  lemma {:induction false} MissingAtAbsentIndices(names: set<Value>, metas: seq<MetaField>)
    ensures var idx := AbsentIndices(names, metas);
            && |Missing(names, metas)| == |idx|
            && forall i :: 0 <= i < |idx| ==> idx[i] < |metas| && Missing(names, metas)[i] == metas[idx[i]].ToJson()
  {
    if metas != [] {
      var n := |metas| - 1;
      var prefix := metas[..n];
      MissingAtAbsentIndices(names, prefix);
      var idx := AbsentIndices(names, prefix);
      var missing := Missing(names, prefix);
      forall i | 0 <= i < |idx|
        ensures prefix[idx[i]] == metas[idx[i]]
      {
      }
      if JString(metas[n].name) in names {
        assert AbsentIndices(names, metas) == idx;
        assert Missing(names, metas) == missing;
      } else {
        assert AbsentIndices(names, metas) == idx + [n];
        assert Missing(names, metas) == missing + [metas[n].ToJson()];
      }
    }
  }

  /** Missing picks exactly the fields whose name is absent, in ascending order
      of their position. */
  lemma MissingSelectsAbsent(names: set<Value>, metas: seq<MetaField>)
    ensures var idx := AbsentIndices(names, metas);
            && |Missing(names, metas)| == |idx|
            && (forall i :: 0 <= i < |idx| ==> idx[i] < |metas| && Missing(names, metas)[i] == metas[idx[i]].ToJson())
            && (forall i, j :: 0 <= i < j < |idx| ==> idx[i] < idx[j])
            && (forall k :: 0 <= k < |metas| ==> (k in idx <==> JString(metas[k].name) !in names))
  {
    MissingAtAbsentIndices(names, metas);
    AbsentIndicesAscending(names, metas);
    AbsentIndicesExact(names, metas);
  }

  /** Nothing is missing once every name is present. */
  lemma {:induction false} MissingNoneWhenAllPresent(names: set<Value>, metas: seq<MetaField>)
    requires forall k :: 0 <= k < |metas| ==> JString(metas[k].name) in names
    ensures Missing(names, metas) == []
  {
    if metas != [] {
      MissingNoneWhenAllPresent(names, metas[..|metas| - 1]);
    }
  }

  /** With distinct names, as many fields are missing as there are absent names. */
  lemma {:induction false} MissingCount(names: set<Value>, metas: seq<MetaField>)
    requires DistinctNames(metas)
    ensures |Missing(names, metas)| == |AbsentNames(names, metas)| <= |metas|
  {
    if metas != [] {
      var n := |metas| - 1;
      var prefix := metas[..n];
      MissingCount(names, prefix);
      if JString(metas[n].name) in names {
        assert AbsentNames(names, metas) == AbsentNames(names, prefix);
      } else {
        assert metas[n].name !in AbsentNames(names, prefix);
        assert AbsentNames(names, metas) == AbsentNames(names, prefix) + {metas[n].name};
      }
    }
  }

  /** The name set of a concatenation is the union of the name sets. */
  lemma {:induction false} FieldNamesAppend(a: seq<Value>, b: seq<Value>)
    requires FieldNames(a).Ok? && FieldNames(b).Ok?
    ensures FieldNames(a + b) == Ok(FieldNames(a).value + FieldNames(b).value)
  {
    if a == [] {
      assert a + b == b;
      assert {} + FieldNames(b).value == FieldNames(b).value;
    } else {
      assert (a + b)[0] == a[0];
      assert (a + b)[1..] == a[1..] + b;
      var n := FieldName(a[0]).value;
      assert FieldNames(a) == Ok({n} + FieldNames(a[1..]).value);
      FieldNamesAppend(a[1..], b);
      assert FieldNames(a + b) == Ok({n} + FieldNames(a[1..] + b).value);
      assert {n} + (FieldNames(a[1..]).value + FieldNames(b).value)
          == ({n} + FieldNames(a[1..]).value) + FieldNames(b).value;
    }
  }

  /** The names collected are exactly the names of the fields. */
  lemma {:induction false} FieldNamesMembers(fields: seq<Value>)
    requires FieldNames(fields).Ok?
    ensures forall n :: n in FieldNames(fields).value <==> exists i :: 0 <= i < |fields| && FieldName(fields[i]) == Ok(n)
  {
    if fields != [] {
      FieldNamesMembers(fields[1..]);
      forall n | n in FieldNames(fields[1..]).value
        ensures exists i :: 0 <= i < |fields| && FieldName(fields[i]) == Ok(n)
      {
        var i :| 0 <= i < |fields[1..]| && FieldName(fields[1..][i]) == Ok(n);
        assert FieldName(fields[i + 1]) == Ok(n);
      }
      forall n, i | 0 <= i < |fields| && FieldName(fields[i]) == Ok(n)
        ensures n in FieldNames(fields).value
      {
        if i > 0 {
          assert FieldName(fields[1..][i - 1]) == Ok(n);
        }
      }
    }
  }

  /** Every metadata field record has its own name. */
  lemma MetaFieldName(m: MetaField)
    ensures FieldName(m.ToJson()) == Ok(JString(m.name))
  {
  }

  /** The names of the missing fields are exactly the absent names. */
  lemma {:induction false} MissingNames(names: set<Value>, metas: seq<MetaField>)
    ensures FieldNames(Missing(names, metas)).Ok?
    ensures forall n :: n in FieldNames(Missing(names, metas)).value <==>
              exists k :: 0 <= k < |metas| && JString(metas[k].name) !in names && n == JString(metas[k].name)
  {
    if metas != [] {
      var m := |metas| - 1;
      var prefix := metas[..m];
      MissingNames(names, prefix);
      var tail: seq<Value> := if JString(metas[m].name) in names then [] else [metas[m].ToJson()];
      MetaFieldName(metas[m]);
      if tail != [] {
        assert tail[1..] == [];
        assert FieldNames(tail) == Ok({JString(metas[m].name)} + {});
      }
      FieldNamesAppend(Missing(names, prefix), tail);
      var got := FieldNames(Missing(names, metas)).value;
      forall n | n in got
        ensures exists k :: 0 <= k < |metas| && JString(metas[k].name) !in names && n == JString(metas[k].name)
      {
        if n in FieldNames(Missing(names, prefix)).value {
          var k :| 0 <= k < |prefix| && JString(prefix[k].name) !in names && n == JString(prefix[k].name);
          assert prefix[k] == metas[k];
        } else {
          assert JString(metas[m].name) !in names && n == JString(metas[m].name);
        }
      }
      forall k | 0 <= k < |metas| && JString(metas[k].name) !in names
        ensures JString(metas[k].name) in got
      {
        if k < m {
          assert prefix[k] == metas[k];
        }
      }
    }
  }

  // ---------------------------------------------------------------------------
  // Properties of the injection

  /** A schema that is not a dict with a list under `fields` is rejected, and
      so is one with a field whose name cannot be taken; every other schema is
      accepted. */
  lemma InjectFailsExactlyOnInvalidFields(schema: Value)
    ensures Injected(schema).Err? <==>
              !(schema.JObject? && "fields" in schema.members && schema.members["fields"].JArray?) ||
              exists i :: 0 <= i < |schema.members["fields"].items| && FieldName(schema.members["fields"].items[i]).Err?
  {
  }

  /** The original fields are an unchanged prefix of the result, followed by
      exactly the metadata fields whose names were absent, in canonical order. */
  lemma InjectAppendsAbsentMetadata(schema: Value)
    requires Injected(schema).Ok?
    ensures FieldsArray(Injected(schema).value).Ok?
    ensures var before := FieldsArray(schema).value;
            var names := FieldNames(before).value;
            var after := FieldsArray(Injected(schema).value).value;
            var idx := AbsentIndices(names, COMMON_METADATA_FIELDS);
            && |after| == |before| + |idx|
            && after[..|before|] == before
            && (forall i :: 0 <= i < |idx| ==>
                  idx[i] < |COMMON_METADATA_FIELDS| && after[|before| + i] == COMMON_METADATA_FIELDS[idx[i]].ToJson())
            && (forall i, j :: 0 <= i < j < |idx| ==> idx[i] < idx[j])
            && (forall k :: 0 <= k < |COMMON_METADATA_FIELDS| ==>
                  (k in idx <==> JString(COMMON_METADATA_FIELDS[k].name) !in names))
  {
    var before := FieldsArray(schema).value;
    var names := FieldNames(before).value;
    MissingSelectsAbsent(names, COMMON_METADATA_FIELDS);
  }

  /** After the injection every metadata name is present, the names present
      before still are, and no other name has appeared. */
  lemma InjectCompletesMetadata(schema: Value)
    requires Injected(schema).Ok?
    ensures FieldsArray(Injected(schema).value).Ok?
    ensures var names := FieldNames(FieldsArray(schema).value).value;
            var after := FieldNames(FieldsArray(Injected(schema).value).value);
            && after.Ok?
            && names <= after.value
            && (forall k :: 0 <= k < |COMMON_METADATA_FIELDS| ==> JString(COMMON_METADATA_FIELDS[k].name) in after.value)
            && (forall n :: n in after.value ==>
                  n in names || exists k :: 0 <= k < |COMMON_METADATA_FIELDS| && n == JString(COMMON_METADATA_FIELDS[k].name))
  {
    var before := FieldsArray(schema).value;
    var names := FieldNames(before).value;
    var suffix := Missing(names, COMMON_METADATA_FIELDS);
    MissingNames(names, COMMON_METADATA_FIELDS);
    FieldNamesAppend(before, suffix);
    var added := FieldNames(suffix).value;
    forall k | 0 <= k < |COMMON_METADATA_FIELDS| && JString(COMMON_METADATA_FIELDS[k].name) !in names
      ensures JString(COMMON_METADATA_FIELDS[k].name) in added
    {
    }
  }

  /** Injecting into an injected schema changes nothing. */
  lemma InjectIdempotent(schema: Value)
    requires Injected(schema).Ok?
    ensures Injected(Injected(schema).value) == Injected(schema)
  {
    var once := Injected(schema).value;
    InjectCompletesMetadata(schema);
    var fields := FieldsArray(once).value;
    var names := FieldNames(fields).value;
    MissingNoneWhenAllPresent(names, COMMON_METADATA_FIELDS);
    assert fields + [] == fields;
    assert once.members["fields" := JArray(fields)] == once.members;
  }

  /** The result grows by the number of metadata names absent before, at most four. */
  lemma InjectLength(schema: Value)
    requires Injected(schema).Ok?
    ensures FieldsArray(Injected(schema).value).Ok?
    ensures var before := FieldsArray(schema).value;
            var after := FieldsArray(Injected(schema).value).value;
            var absent := AbsentNames(FieldNames(before).value, COMMON_METADATA_FIELDS);
            |after| == |before| + |absent| && |absent| <= 4
  {
    var names := FieldNames(FieldsArray(schema).value).value;
    assert DistinctNames(COMMON_METADATA_FIELDS);
    MissingCount(names, COMMON_METADATA_FIELDS);
  }
}
