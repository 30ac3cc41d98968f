/**
 * The three declared request shapes, as ordered tables of (attribute name, field). Python looks an
 * attribute up by name (`getattr`), which `Lookup` models.
 */
module Schemas {
  import opened Outcomes
  import opened Values
  import opened Fields

  type Schema = seq<(string, FieldSpec)>

  /** `ClientsInterestsRequest`; `ClientIDsField(required=True)` keeps the default `nullable=False`. */
  const CLIENTS_INTERESTS_REQUEST: Schema := [
    ("client_ids", FieldSpec(true, false, ClientIDsField)),
    ("date", FieldSpec(false, true, DateField))
  ]

  const ONLINE_SCORE_REQUEST: Schema := [
    ("first_name", FieldSpec(false, true, CharField)),
    ("last_name", FieldSpec(false, true, CharField)),
    ("email", FieldSpec(false, true, EmailField)),
    ("phone", FieldSpec(false, true, PhoneField)),
    ("birthday", FieldSpec(false, true, BirthDayField)),
    ("gender", FieldSpec(false, true, GenderField))
  ]

  /** The envelope; `is_admin` is a property, not a field, and has no `clean`. */
  const METHOD_REQUEST: Schema := [
    ("account", FieldSpec(false, true, CharField)),
    ("login", FieldSpec(true, true, CharField)),
    ("token", FieldSpec(true, true, CharField)),
    ("arguments", FieldSpec(true, true, ArgumentsField)),
    ("method", FieldSpec(true, false, CharField))
  ]

  predicate DistinctNames(schema: Schema)
  {
    forall a, b | 0 <= a < b < |schema| :: schema[a].0 != schema[b].0
  }

  lemma DeclaredSchemasHaveDistinctNames()
    ensures DistinctNames(CLIENTS_INTERESTS_REQUEST)
    ensures DistinctNames(ONLINE_SCORE_REQUEST)
    ensures DistinctNames(METHOD_REQUEST)
  {
  }

  /** The field bound to `name`, if the class declares one. */
  function Lookup(schema: Schema, name: string): (r: Option<FieldSpec>)
    ensures r.Some? <==> exists k | 0 <= k < |schema| :: schema[k].0 == name
    ensures r.Some? ==> (name, r.value) in schema
  {
    if schema == [] then None
    else if schema[0].0 == name then Some(schema[0].1)
    else Lookup(schema[1..], name)
  }

  /** In a table with distinct names, looking up a declared name finds the field declared under it. */
  lemma {:induction false} LookupDeclared(schema: Schema, k: int)
    requires DistinctNames(schema) && 0 <= k < |schema|
    ensures Lookup(schema, schema[k].0) == Some(schema[k].1)
  {
    if k > 0 {
      assert schema[0].0 != schema[k].0;
      assert DistinctNames(schema[1..]) by {
        forall a, b | 0 <= a < b < |schema[1..]| ensures schema[1..][a].0 != schema[1..][b].0 {
          assert schema[1..][a] == schema[a + 1] && schema[1..][b] == schema[b + 1];
        }
      }
      LookupDeclared(schema[1..], k - 1);
      assert schema[1..][k - 1] == schema[k];
    }
  }

  /** `clean` raises the status-coded error of a required, non-nullable field. */
  predicate RaisesInvalidRequest(spec: FieldSpec, v: Json)
  {
    Clean(spec, v).Err? && Clean(spec, v).error.InvalidRequest?
  }

  /** Of all argument fields of both methods, only an empty `client_ids` is refused before its check. */
  lemma ArgumentFieldsInvalidRequestIff(schema: Schema, k: int, v: Json)
    requires schema == CLIENTS_INTERESTS_REQUEST || schema == ONLINE_SCORE_REQUEST
    requires 0 <= k < |schema|
    ensures RaisesInvalidRequest(schema[k].1, v) <==> schema[k].0 == "client_ids" && v in EMPTY_VALUES
  {
    CleanInvalidRequestIff(schema[k].1, v);
  }

  /** Of the envelope fields, only an empty `method` is refused before its check. */
  lemma EnvelopeFieldsInvalidRequestIff(k: int, v: Json)
    requires 0 <= k < |METHOD_REQUEST|
    ensures RaisesInvalidRequest(METHOD_REQUEST[k].1, v) <==> METHOD_REQUEST[k].0 == "method" && v in EMPTY_VALUES
  {
    CleanInvalidRequestIff(METHOD_REQUEST[k].1, v);
  }
}
