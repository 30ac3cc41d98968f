/**
 * `method_handler`: every key present in the request is cleaned by the envelope field of the same
 * name, in the request's iteration order, and the first exception ends the call. The per-method
 * argument tables, the authentication and `ctx`/`store` are not used.
 */
module Handler {
  import opened Outcomes
  import opened Values
  import opened ApiConstants
  import opened Fields
  import opened Schemas

  /** The response of every call that gets through the loop. */
  const SCORE_RESPONSE: Json := Dict(map["score" := Str(ADMIN_SALT)])

  /** `getattr(MethodRequest, name).clean(value)`: a name without a field has no `clean`. */
  function CleanEntry(name: string, value: Json): Result<Json, FieldError>
  {
    match Lookup(METHOD_REQUEST, name)
    case None => Err(Other("AttributeError"))
    case Some(spec) => Clean(spec, value)
  }

  /** The result of each item's `clean`, in iteration order. */
  function CleanItems(request: seq<(string, Json)>): (r: seq<Result<Json, FieldError>>)
    ensures |r| == |request|
    ensures forall j | 0 <= j < |r| :: r[j] == CleanEntry(request[j].0, request[j].1)
  {
    seq(|request|, j requires 0 <= j < |request| => CleanEntry(request[j].0, request[j].1))
  }

  /**
   * The loop over the results of the cleans: the first exception ends the call; past the loop the
   * response is the score. (A `clean` has no side effect, so cleaning the items after the first
   * failing one changes nothing.)
   */
  function Outcome(results: seq<Result<Json, FieldError>>): Result<Json, FieldError>
  {
    if results == [] then Ok(SCORE_RESPONSE)
    else match results[0]
      case Err(e) => Err(e)
      case Ok(_) => Outcome(results[1..])
  }

  /** The outcome of a call on the request items `request`, in iteration order. */
  function HandlerOutcome(request: seq<(string, Json)>): Result<Json, FieldError>
  {
    Outcome(CleanItems(request))
  }

  predicate AllClean(request: seq<(string, Json)>)
  {
    forall j | 0 <= j < |request| :: CleanEntry(request[j].0, request[j].1).Ok?
  }

  /**
   * `validated_request` after `setdefault` of each item: the first value of a name stays. The
   * envelope's checks return the value they are given, so the cleaned value is the item's own.
   */
  function Validated(request: seq<(string, Json)>): map<string, Json>
  {
    if request == [] then map[]
    else
      var before := Validated(request[..|request| - 1]);
      var (name, value) := request[|request| - 1];
      if name in before then before else before[name := value]
  }

  /** The envelope's fields by name, as the class body declares them. */
  lemma EnvelopeLookup(name: string)
    ensures Lookup(METHOD_REQUEST, name) ==
      if name == "account" then Some(FieldSpec(false, true, CharField))
      else if name == "login" then Some(FieldSpec(true, true, CharField))
      else if name == "token" then Some(FieldSpec(true, true, CharField))
      else if name == "arguments" then Some(FieldSpec(true, true, ArgumentsField))
      else if name == "method" then Some(FieldSpec(true, false, CharField))
      else None
  {
    assert METHOD_REQUEST[1..][1..][1..][1..][1..] == [];
  }

  lemma CleanAccount(value: Json)
    ensures CleanEntry("account", value) == CheckChar(value)
  {
    DeclaredSchemasHaveDistinctNames();
    LookupDeclared(METHOD_REQUEST, 0);
  }

  lemma CleanLoginOrToken(name: string, value: Json)
    requires name == "login" || name == "token"
    ensures CleanEntry(name, value) == CheckChar(value)
  {
    DeclaredSchemasHaveDistinctNames();
    LookupDeclared(METHOD_REQUEST, 1);
    LookupDeclared(METHOD_REQUEST, 2);
  }

  lemma CleanArguments(value: Json)
    ensures CleanEntry("arguments", value) == CheckArguments(value)
  {
    DeclaredSchemasHaveDistinctNames();
    LookupDeclared(METHOD_REQUEST, 3);
  }

  lemma CleanMethod(value: Json)
    ensures CleanEntry("method", value) == if value in EMPTY_VALUES then Err(ValidationError(CharField)) else CheckChar(value)
  {
    DeclaredSchemasHaveDistinctNames();
    LookupDeclared(METHOD_REQUEST, 4);
  }

  /**
   * What `clean` does with one item, field by field: only `method` refuses an empty value, and the
   * checks of the envelope are `type(value) is str` and `type(value) is dict`.
   */
  lemma EnvelopeCleanCases(name: string, value: Json)
    ensures CleanEntry(name, value) ==
      if Lookup(METHOD_REQUEST, name).None? then Err(Other("AttributeError"))
      else if name == "method" && value in EMPTY_VALUES then Err(ValidationError(CharField))
      else if name == "arguments" then (if value.Dict? then Ok(value) else Err(TypeMismatch("ArgumentsField")))
      else if value.Str? then Ok(value)
      else Err(TypeMismatch("CharField"))
  {
    EnvelopeLookup(name);
    if name == "account" {
      CleanAccount(value);
    } else if name == "login" || name == "token" {
      CleanLoginOrToken(name, value);
    } else if name == "arguments" {
      CleanArguments(value);
    } else if name == "method" {
      CleanMethod(value);
    }
  }

  /** Every envelope check hands back the value it was given. */
  lemma CleanEntryKeepsValue(name: string, value: Json)
    ensures CleanEntry(name, value).Ok? ==> CleanEntry(name, value).value == value
  {
    EnvelopeCleanCases(name, value);
  }

  /** One result looked at: an error ends the loop, a value lets it go on with the rest. */
  lemma OutcomeStep(results: seq<Result<Json, FieldError>>, i: int)
    requires 0 <= i < |results|
    ensures results[i].Err? ==> Outcome(results[i..]) == Err(results[i].error)
    ensures results[i].Ok? ==> Outcome(results[i..]) == Outcome(results[i + 1..])
  {
    assert results[i..][0] == results[i];
    assert results[i..][1..] == results[i + 1..];
  }

  /** The loop gets through exactly when every result is a value; otherwise it ends with the first error. */
  lemma {:induction false} OutcomeIff(results: seq<Result<Json, FieldError>>)
    ensures Outcome(results).Ok? <==> forall j | 0 <= j < |results| :: results[j].Ok?
    ensures Outcome(results).Ok? ==> Outcome(results).value == SCORE_RESPONSE
    ensures Outcome(results).Err? ==>
      exists j | 0 <= j < |results| :: results[j] == Err(Outcome(results).error)
        && forall k | 0 <= k < j :: results[k].Ok?
  {
    if results != [] {
      OutcomeIff(results[1..]);
      if results[0].Ok? {
        if Outcome(results).Err? {
          var j :| 0 <= j < |results[1..]| && results[1..][j] == Err(Outcome(results).error)
            && forall k | 0 <= k < j :: results[1..][k].Ok?;
          assert results[j + 1] == results[1..][j];
          assert forall k | 0 <= k < j + 1 :: results[k].Ok? by {
            forall k | 0 <= k < j + 1 ensures results[k].Ok? {
              if k > 0 {
                assert results[k] == results[1..][k - 1];
              }
            }
          }
        }
        assert (forall j | 0 <= j < |results| :: results[j].Ok?) <==> (forall j | 0 <= j < |results[1..]| :: results[1..][j].Ok?) by {
          forall j | 0 <= j < |results[1..]| ensures results[1..][j] == results[j + 1] { }
        }
      }
    }
  }

  /** One more item set by default into `validated_request`. */
  lemma ValidatedStep(request: seq<(string, Json)>, i: int)
    requires 0 <= i < |request|
    ensures Validated(request[..i + 1]) ==
      if request[i].0 in Validated(request[..i]) then Validated(request[..i])
      else Validated(request[..i])[request[i].0 := request[i].1]
  {
    assert request[..i + 1][..i] == request[..i];
    assert request[..i + 1][i] == request[i];
  }

  method MethodHandler(request: seq<(string, Json)>) returns (response: Result<Json, FieldError>)
    ensures response == HandlerOutcome(request)
  {
    var validated: map<string, Json> := map[];
    var i := 0;
    while i < |request|
      invariant 0 <= i <= |request|
      invariant HandlerOutcome(request) == Outcome(CleanItems(request)[i..])
      invariant validated == Validated(request[..i])
    {
      var (name, value) := request[i];
      var cleaned := CleanEntry(name, value);
      OutcomeStep(CleanItems(request), i);
      if cleaned.Err? {
        return Err(cleaned.error);
      }
      CleanEntryKeepsValue(name, value);
      ValidatedStep(request, i);
      if name !in validated {
        validated := validated[name := cleaned.value];
      }
      i := i + 1;
    }
    // `is_admin` is read on the class, where it is a property object and so always true:
    // the score is returned and `validated_request` never is.
    assert CleanItems(request)[i..] == [];
    response := Ok(SCORE_RESPONSE);
  }

  /** A call succeeds exactly when every item cleans, and then returns the score; otherwise it fails with the first item's error. */
  lemma HandlerOutcomeIff(request: seq<(string, Json)>)
    ensures HandlerOutcome(request).Ok? <==> AllClean(request)
    ensures HandlerOutcome(request).Ok? ==> HandlerOutcome(request).value == SCORE_RESPONSE
    ensures HandlerOutcome(request).Err? ==>
      exists j | 0 <= j < |request| ::
        CleanEntry(request[j].0, request[j].1) == Err(HandlerOutcome(request).error)
        && AllClean(request[..j])
  {
    var results := CleanItems(request);
    OutcomeIff(results);
    if HandlerOutcome(request).Err? {
      var j :| 0 <= j < |results| && results[j] == Err(Outcome(results).error)
        && forall k | 0 <= k < j :: results[k].Ok?;
      assert forall k | 0 <= k < j :: request[..j][k] == request[k];
    }
  }

  /** A key the envelope does not declare (`is_admin` included) makes the call fail. */
  lemma UnknownKeyFails(request: seq<(string, Json)>, j: int)
    requires 0 <= j < |request| && Lookup(METHOD_REQUEST, request[j].0).None?
    ensures HandlerOutcome(request).Err?
    ensures AllClean(request[..j]) ==> HandlerOutcome(request) == Err(Other("AttributeError"))
  {
    assert CleanEntry(request[j].0, request[j].1) == Err(Other("AttributeError"));
    HandlerOutcomeIff(request);
    if AllClean(request[..j]) {
      var i :| 0 <= i < |request| && CleanEntry(request[i].0, request[i].1) == Err(HandlerOutcome(request).error)
        && AllClean(request[..i]);
      PrefixClean(request, j);
      PrefixClean(request, i);
    }
  }

  /** A clean prefix means each of its items cleans. */
  lemma PrefixClean(request: seq<(string, Json)>, j: int)
    requires 0 <= j <= |request| && AllClean(request[..j])
    ensures forall k | 0 <= k < j :: CleanEntry(request[k].0, request[k].1).Ok?
  {
    assert forall k | 0 <= k < j :: request[..j][k] == request[k];
  }

  /** An item's clean raises the status-coded error only for an empty `method`. */
  lemma CleanEntryInvalidRequestIff(name: string, value: Json)
    ensures CleanEntry(name, value).Err? && CleanEntry(name, value).error.InvalidRequest? <==>
      name == "method" && value in EMPTY_VALUES
    ensures CleanEntry(name, value).Err? && CleanEntry(name, value).error.InvalidRequest? ==>
      CleanEntry(name, value).error == InvalidRequest(INVALID_REQUEST, "Validation error field 'CharField'")
  {
    EnvelopeCleanCases(name, value);
    ValidationErrorOfCharField();
  }

  lemma ValidationErrorOfCharField()
    ensures ValidationError(CharField) == InvalidRequest(INVALID_REQUEST, "Validation error field 'CharField'")
  {
  }

  /** The status-coded error can only come from an empty `method`, and then names `CharField`. */
  lemma InvalidRequestOnlyFromMethod(request: seq<(string, Json)>)
    requires HandlerOutcome(request).Err? && HandlerOutcome(request).error.InvalidRequest?
    ensures exists j | 0 <= j < |request| :: request[j].0 == "method" && request[j].1 in EMPTY_VALUES
    ensures HandlerOutcome(request).error == InvalidRequest(INVALID_REQUEST, "Validation error field 'CharField'")
  {
    var results := CleanItems(request);
    OutcomeIff(results);
    var j :| 0 <= j < |results| && results[j] == Err(Outcome(results).error)
      && forall k | 0 <= k < j :: results[k].Ok?;
    CleanEntryInvalidRequestIff(request[j].0, request[j].1);
  }

  /** Required envelope fields that are absent are never looked at, and any method name is taken. */
  lemma AbsentFieldsNotChecked()
    ensures HandlerOutcome([]) == Ok(SCORE_RESPONSE)
    ensures HandlerOutcome([("method", Str("foo"))]) == Ok(SCORE_RESPONSE)
  {
    assert WellFormedItem(("method", Str("foo")));
    WellFormedRequestScores([("method", Str("foo"))]);
  }

  /** A lone `login` of `None` fails `CharField`'s check although the field is nullable. */
  lemma NullLoginFails()
    ensures HandlerOutcome([("login", Null)]) == Err(TypeMismatch("CharField"))
  {
    CleanLoginOrToken("login", Null);
    OutcomeStep(CleanItems([("login", Null)]), 0);
  }

  /** A lone empty `method` is the status-coded error. */
  lemma EmptyMethodFails()
    ensures HandlerOutcome([("method", Str(""))]) == Err(InvalidRequest(422, "Validation error field 'CharField'"))
  {
    assert Str("") in EMPTY_VALUES;
    CleanEntryInvalidRequestIff("method", Str(""));
    OutcomeStep(CleanItems([("method", Str(""))]), 0);
  }

  /** An item that the envelope accepts: text for the four text fields, a non-empty text for `method`, a dict for `arguments`. */
  predicate WellFormedItem(item: (string, Json))
  {
    var (name, value) := item;
    if name == "arguments" then value.Dict?
    else if name == "method" then value.Str? && value.s != "" && value.s != " "
    else name in {"account", "login", "token"} && value.Str?
  }

  /** A request made of accepted items, in any order and with repeats, returns the score. */
  lemma WellFormedRequestScores(request: seq<(string, Json)>)
    requires forall j | 0 <= j < |request| :: WellFormedItem(request[j])
    ensures HandlerOutcome(request) == Ok(SCORE_RESPONSE)
  {
    forall j | 0 <= j < |request| ensures CleanEntry(request[j].0, request[j].1).Ok? {
      WellFormedItemCleans(request[j]);
    }
    HandlerOutcomeIff(request);
  }

  /** An accepted item cleans without error. */
  lemma WellFormedItemCleans(item: (string, Json))
    requires WellFormedItem(item)
    ensures CleanEntry(item.0, item.1).Ok?
  {
    var (name, value) := item;
    if name == "method" {
      assert value !in EMPTY_VALUES;
      CleanMethod(value);
    } else {
      EnvelopeLookup(name);
      EnvelopeCleanCases(name, value);
    }
  }

  /** The two requests written out in the module, in the order of their source text. */
  const SAMPLE_ONLINE_SCORE: seq<(string, Json)> := [
    ("account", Str("horns&hoofs")),
    ("login", Str("h&f")),
    ("method", Str("online_score")),
    ("token", Str("55cc9ce545bcd144300fe9efc28e65d415b923ebb6be1e19d2750a2c03e80dd209a27954dca045e5bb12418e7d89b6d718a9e35af3")),
    ("arguments", Dict(map[
      "phone" := Str("559985002040"),
      "email" := Str("j.mormont@bearisland.wst"),
      "first_name" := Str("Jorah"),
      "last_name" := Str("Mormont"),
      "birthday" := Str("28.03.255"),
      "gender" := Int(1)]))
  ]

  const SAMPLE_CLIENTS_INTERESTS: seq<(string, Json)> := [
    ("account", Str("horns&hoofs")),
    ("login", Str("admin")),
    ("method", Str("clients_interests")),
    ("token", Str("d3573aff1555cd67dccf21b95fe8c4dc8732f33fd4e32461b7fe6a71d83c947688515e36774c00fb630b039fe2223c991f045f13f2")),
    ("arguments", Dict(map["client_ids" := List([Int(1), Int(2), Int(3), Int(4)]), "date" := Str("20.07.2017")]))
  ]

  lemma SamplesWellFormed()
    ensures forall j | 0 <= j < |SAMPLE_ONLINE_SCORE| :: WellFormedItem(SAMPLE_ONLINE_SCORE[j])
    ensures forall j | 0 <= j < |SAMPLE_CLIENTS_INTERESTS| :: WellFormedItem(SAMPLE_CLIENTS_INTERESTS[j])
  {
  }

  /**
   * Both sample calls return the score, in whatever order the dictionary yields their items,
   * although the first one's birthday is no date: arguments are not validated.
   */
  lemma SampleRequestsScore(request: seq<(string, Json)>)
    requires multiset(request) == multiset(SAMPLE_ONLINE_SCORE) || multiset(request) == multiset(SAMPLE_CLIENTS_INTERESTS)
    ensures HandlerOutcome(request) == Ok(SCORE_RESPONSE)
  {
    SamplesWellFormed();
    forall j | 0 <= j < |request| ensures WellFormedItem(request[j]) {
      assert request[j] in multiset(request);
    }
    WellFormedRequestScores(request);
  }
}
