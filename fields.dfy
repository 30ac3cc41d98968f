/**
 * The typed request fields: the shared `clean` rule and the acceptance rule (`check_field`) of each
 * of the eight field classes. Each class is one `FieldKind`; `required` and `nullable` are fixed
 * when a field is declared and only read afterwards.
 */
module Fields {
  import opened Outcomes
  import opened Text
  import opened Calendar
  import opened Strptime
  import opened Values
  import opened ApiConstants

  datatype FieldKind =
    | CharField
    | EmailField
    | ClientIDsField
    | DateField
    | ArgumentsField
    | PhoneField
    | BirthDayField
    | GenderField

  datatype FieldSpec = FieldSpec(required: bool, nullable: bool, kind: FieldKind)

  /**
   * What a field raises. `InvalidRequest` is the `ValueError` carrying a status code that `clean`
   * raises itself; `TypeMismatch` is the plain `ValueError` of a `check_field`, naming the class
   * whose check raised it; `Other` is any other exception (`TypeError`, `AttributeError`).
   */
  datatype FieldError =
    | InvalidRequest(code: int, message: string)
    | TypeMismatch(checker: string)
    | Other(exception: string)

  /** `Field.empty_values`; membership is Python's `in`, that is, equality with one of them. */
  const EMPTY_VALUES: seq<Json> := [Dict(map[]), Str(""), Str(" "), Null, List([]), Tuple([])]

  function ClassName(kind: FieldKind): string
  {
    match kind
    case CharField => "CharField"
    case EmailField => "EmailField"
    case ClientIDsField => "ClientIDsField"
    case DateField => "DateField"
    case ArgumentsField => "ArgumentsField"
    case PhoneField => "PhoneField"
    case BirthDayField => "BirthDayField"
    case GenderField => "GenderField"
  }

  /** The message of `clean`'s error names the field's class, not the attribute it is bound to. */
  function ValidationError(kind: FieldKind): FieldError
  {
    InvalidRequest(INVALID_REQUEST, "Validation error field '" + ClassName(kind) + "'")
  }

  // ---------------------------------------------------------------- CharField, ArgumentsField, GenderField

  /** `type(value) is str`. */
  function CheckChar(v: Json): (r: Result<Json, FieldError>)
    ensures r.Ok? <==> v.Str?
    ensures r.Ok? ==> r.value == v
    ensures r.Err? ==> r.error == TypeMismatch("CharField")
  {
    if v.Str? then Ok(v) else Err(TypeMismatch("CharField"))
  }

  /** `type(value) is dict`. */
  function CheckArguments(v: Json): (r: Result<Json, FieldError>)
    ensures r.Ok? <==> v.Dict?
    ensures r.Ok? ==> r.value == v
    ensures r.Err? ==> r.error == TypeMismatch("ArgumentsField")
  {
    if v.Dict? then Ok(v) else Err(TypeMismatch("ArgumentsField"))
  }

  /** `type(value) is int and value in GENDERS.keys()`; a `bool` is not of type `int`. */
  function CheckGender(v: Json): (r: Result<Json, FieldError>)
    ensures r.Ok? <==> v.Int? && 0 <= v.i <= 2
    ensures r.Ok? ==> r.value == v
    ensures r.Err? ==> r.error == TypeMismatch("GenderField")
  {
    if v.Int? && v.i in GENDERS.Keys then Ok(v) else Err(TypeMismatch("GenderField"))
  }

  // ---------------------------------------------------------------- EmailField

  /** The end of the text that `$` may match at: the very end, or just before a final newline. */
  function BodyEnd(s: string): (e: nat)
    ensures e <= |s|
  {
    if |s| > 0 && s[|s| - 1] == '\n' then |s| - 1 else |s|
  }

  /** The first position of `c` in `s`, as `s.find(c)`. */
  function IndexOf(s: string, c: char): (r: Option<nat>)
    ensures r.Some? ==> r.value < |s| && s[r.value] == c && c !in s[..r.value]
    ensures r.None? ==> c !in s
  {
    if s == [] then None
    else if s[0] == c then Some(0)
    else match IndexOf(s[1..], c)
      case None => None
      case Some(k) => assert s[..k + 1] == [s[0]] + s[1..][..k]; Some(k + 1)
  }

  /**
   * One way for `^\S*@(.*)\.([a-z].*)$` to match `s`: `s[..i]` is the `\S*`, `s[i]` the `@`,
   * `s[i+1..j]` the first `.*`, `s[j]` the `\.`, `s[j+1]` the `[a-z]`, `s[j+2..e]` the last `.*`,
   * and `e` a place where `$` matches.
   */
  ghost predicate EmailSplitAt(s: string, e: int, i: int, j: int)
  {
    && 0 <= i < j && j + 1 < e && (e == |s| || (e == |s| - 1 && s[e] == '\n'))
    && s[i] == '@' && NoSpace(s[..i])
    && NoNewline(s[i + 1..j])
    && s[j] == '.' && IsLower(s[j + 1])
    && NoNewline(s[j + 2..e])
  }

  /** The language of the e-mail regular expression. */
  ghost predicate EmailPattern(s: string)
  {
    exists e, i, j :: EmailSplitAt(s, e, i, j)
  }

  /** The deterministic check used by `CheckEmail`: take the first `@`, then look for `.` and a lower-case letter. */
  predicate EmailMatches(s: string)
  {
    var body := s[..BodyEnd(s)];
    NoNewline(body) &&
    match IndexOf(body, '@')
    case None => false
    case Some(i) => NoSpace(body[..i]) && exists j | i < j < |body| - 1 :: body[j] == '.' && IsLower(body[j + 1])
  }

  /** What the check finds is a way for the regular expression to match. */
  lemma EmailMatchesSound(s: string)
    requires EmailMatches(s)
    ensures EmailPattern(s)
  {
    var e := BodyEnd(s);
    var body := s[..e];
    var i := IndexOf(body, '@').value;
    var j :| i < j < |body| - 1 && body[j] == '.' && IsLower(body[j + 1]);
    assert s[..i] == body[..i];
    assert s[i + 1..j] == body[i + 1..j];
    assert s[j + 2..e] == body[j + 2..];
    assert EmailSplitAt(s, e, i, j);
  }

  /** Any way for the regular expression to match is found by the check. */
  lemma EmailPatternComplete(s: string, e: int, i: int, j: int)
    requires EmailSplitAt(s, e, i, j)
    ensures EmailMatches(s)
  {
    assert e == BodyEnd(s) by {
      if e == |s| && j + 2 < e {
        assert s[j + 2..e][e - 1 - (j + 2)] == s[e - 1];
      }
    }
    var body := s[..e];
    forall k | 0 <= k < |body|
      ensures body[k] != '\n'
    {
      if k < i {
        assert s[..i][k] == s[k];
        assert !IsSpace(s[k]);
      } else if i < k < j {
        assert s[i + 1..j][k - (i + 1)] == s[k];
      } else if j + 1 < k {
        assert s[j + 2..e][k - (j + 2)] == s[k];
      }
    }
    var i0 := IndexOf(body, '@');
    assert body[i] == '@';
    assert i0.Some? && i0.value <= i;
    assert body[..i0.value] == s[..i][..i0.value];
    assert body[j] == '.' && IsLower(body[j + 1]);
  }

  /** The check agrees with the regular expression on every string. */
  lemma EmailMatchesIff(s: string)
    ensures EmailMatches(s) <==> EmailPattern(s)
  {
    if EmailMatches(s) {
      EmailMatchesSound(s);
    }
    if EmailPattern(s) {
      var e, i, j :| EmailSplitAt(s, e, i, j);
      EmailPatternComplete(s, e, i, j);
    }
  }

  /** `regex.match(value)`; anything but a string makes `re` raise `TypeError`. */
  function CheckEmail(v: Json): (r: Result<Json, FieldError>)
    ensures r.Ok? <==> v.Str? && EmailPattern(v.s)
    ensures r.Ok? ==> r.value == v
    ensures !v.Str? ==> r == Err(Other("TypeError"))
    ensures v.Str? && r.Err? ==> r.error == TypeMismatch("EmailField")
  {
    if !v.Str? then Err(Other("TypeError"))
    else
      EmailMatchesIff(v.s);
      if EmailMatches(v.s) then Ok(v) else Err(TypeMismatch("EmailField"))
  }

  // ---------------------------------------------------------------- ClientIDsField

  /**
   * As written: the comprehension keeps only `True`s, so `all(...)` holds of every list and the
   * element types are never looked at.
   */
  function CheckClientIds(v: Json): (r: Result<Json, FieldError>)
    ensures r.Ok? <==> v.List?
    ensures r.Ok? ==> r.value == v
  {
    if v.List? then Ok(v) else Err(TypeMismatch("ClientIDsField"))
  }

  /**
   * The evident intent of the same line: a list whose every element is of type `int`, so neither a
   * `bool` nor a `long`.
   */
  function CheckClientIdsIntended(v: Json): (r: Result<Json, FieldError>)
    ensures r.Ok? <==> v.List? && forall k | 0 <= k < |v.items| :: v.items[k].Int? && PY_INT_MIN <= v.items[k].i <= PY_INT_MAX
    ensures r.Ok? ==> r.value == v
  {
    if v.List? && forall k | 0 <= k < |v.items| :: IsPyInt(v.items[k]) then Ok(v) else Err(TypeMismatch("ClientIDsField"))
  }

  // ---------------------------------------------------------------- DateField, BirthDayField

  /** `strptime(value, '%d.%m.%Y')`, returning the text itself; a non-string makes `strptime` raise `TypeError`. */
  function CheckDate(v: Json): (r: Result<Json, FieldError>)
    ensures r.Ok? <==> v.Str? && ParseDate(v.s).Some?
    ensures r.Ok? ==> r.value == v
    ensures !v.Str? ==> r == Err(Other("TypeError"))
    ensures v.Str? && r.Err? ==> r.error == TypeMismatch("DateField")
  {
    if !v.Str? then Err(Other("TypeError"))
    else if ParseDate(v.s).Some? then Ok(v)
    else Err(TypeMismatch("DateField"))
  }

  /**
   * As written: the date check returns the text, and subtracting a `str` from a `date` raises
   * `TypeError`, so a well-formed date fails too.
   */
  function CheckBirthDay(v: Json): (r: Result<Json, FieldError>)
  {
    match CheckDate(v)
    case Err(e) => Err(e)
    case Ok(_) => Err(Other("TypeError"))
  }

  /** Nothing passes the birthday check as written. */
  lemma BirthDayNeverSucceeds(v: Json)
    ensures CheckBirthDay(v).Err?
    ensures CheckBirthDay(v) == Err(Other("TypeError")) <==> !v.Str? || ParseDate(v.s).Some?
  {
  }

  /** Whole years as the source counts them: `diff.days / 365`, Python 2 floor division. */
  function AgeInYears(birth: Date, today: Date): int
    requires ValidDate(birth) && ValidDate(today)
  {
    DaysBetween(birth, today) / 365
  }

  /** The evident intent: subtract the parsed date and keep ages strictly between 5 and 100. */
  function CheckBirthDayIntended(v: Json, today: Date): (r: Result<Json, FieldError>)
    requires ValidDate(today)
  {
    match CheckDate(v)
    case Err(e) => Err(e)
    case Ok(_) =>
      var years := AgeInYears(ParseDate(v.s).value, today);
      if years < 100 && years > 5 then Ok(v) else Err(TypeMismatch("BirthDayField"))
  }

  /** Both bounds are exclusive: at least 6 * 365 and fewer than 100 * 365 days old. */
  lemma BirthDayIntendedIff(v: Json, today: Date)
    requires ValidDate(today)
    ensures CheckBirthDayIntended(v, today).Ok? <==>
      v.Str? && ParseDate(v.s).Some? && 2190 <= DaysBetween(ParseDate(v.s).value, today) < 36500
    ensures CheckBirthDayIntended(v, today).Ok? ==> CheckBirthDayIntended(v, today).value == v
  {
    if v.Str? && ParseDate(v.s).Some? {
      var days := DaysBetween(ParseDate(v.s).value, today);
      assert 5 < days / 365 < 100 <==> 2190 <= days < 36500;
    }
  }

  // ---------------------------------------------------------------- PhoneField

  /** `str(v)` of a scalar; `None` for a list, tuple or dict, whose text starts with a bracket. */
  function ScalarText(v: Json): Option<string>
  {
    match v
    case Null => Some("None")
    case Bool(b) => Some(if b then "True" else "False")
    case Int(i) => Some(IntToDecimal(i))
    case Str(s) => Some(s)
    case _ => None
  }

  /** `str(value)` must be non-empty and all digits; the text is returned (as `unicode`). */
  function CheckPhone(v: Json): (r: Result<Json, FieldError>)
  {
    match ScalarText(v)
    case Some(t) => if t != "" && AllDigits(t) then Ok(Str(t)) else Err(TypeMismatch("PhoneField"))
    case None => Err(TypeMismatch("PhoneField"))
  }

  /** A phone is a non-empty digit string or a non-negative `int`, and comes back as its decimal text. */
  lemma PhoneAcceptsIff(v: Json)
    ensures CheckPhone(v).Ok? <==> (v.Str? && v.s != "" && AllDigits(v.s)) || (v.Int? && v.i >= 0)
    ensures CheckPhone(v).Ok? && v.Str? ==> CheckPhone(v).value == v
    ensures CheckPhone(v).Ok? && v.Int? ==> CheckPhone(v).value == Str(NatToDecimal(v.i))
    ensures CheckPhone(v).Err? ==> CheckPhone(v).error == TypeMismatch("PhoneField")
  {
    match v
    case Int(i) => IntToDecimalDigitsIff(i);
    case Null => assert !IsDigit("None"[0]);
    case Bool(b) => assert !IsDigit("True"[0]) && !IsDigit("False"[0]);
    case _ =>
  }

  // ---------------------------------------------------------------- dispatch and clean

  /** The `check_field` of the field's class. */
  function CheckField(kind: FieldKind, v: Json): Result<Json, FieldError>
  {
    match kind
    case CharField => CheckChar(v)
    case EmailField => CheckEmail(v)
    case ClientIDsField => CheckClientIds(v)
    case DateField => CheckDate(v)
    case ArgumentsField => CheckArguments(v)
    case PhoneField => CheckPhone(v)
    case BirthDayField => CheckBirthDay(v)
    case GenderField => CheckGender(v)
  }

  /** `Field.clean`: only an empty value of a required, non-nullable field is refused before the check. */
  function Clean(spec: FieldSpec, v: Json): Result<Json, FieldError>
  {
    if v in EMPTY_VALUES && spec.required && !spec.nullable then Err(ValidationError(spec.kind))
    else CheckField(spec.kind, v)
  }

  /**
   * `clean` raises the status-coded error exactly for an empty value of a required, non-nullable
   * field; otherwise, empty or not, the value goes through the class's check.
   */
  lemma CleanInvalidRequestIff(spec: FieldSpec, v: Json)
    ensures Clean(spec, v).Err? && Clean(spec, v).error.InvalidRequest? <==>
      v in EMPTY_VALUES && spec.required && !spec.nullable
    ensures Clean(spec, v).Err? && Clean(spec, v).error.InvalidRequest? ==>
      Clean(spec, v).error == InvalidRequest(422, "Validation error field '" + ClassName(spec.kind) + "'")
    ensures !(v in EMPTY_VALUES && spec.required && !spec.nullable) ==> Clean(spec, v) == CheckField(spec.kind, v)
  {
    PhoneAcceptsIff(v);
  }

  /** `nullable` lets nothing through on its own: `None` is refused by every one of the eight checks. */
  lemma NullRejectedByEveryField(spec: FieldSpec)
    ensures Clean(spec, Null).Err?
    ensures spec.kind in {EmailField, DateField, BirthDayField} && !(spec.required && !spec.nullable) ==>
      Clean(spec, Null) == Err(Other("TypeError"))
  {
    assert Null in EMPTY_VALUES;
    assert ScalarText(Null) == Some("None") && !IsDigit("None"[0]);
  }

  /** The empty values that do get through a check: `""` and `" "` as text, `[]` as ids, `{}` as arguments. */
  lemma EmptyValuesThatPass(spec: FieldSpec, v: Json)
    requires v in EMPTY_VALUES && !(spec.required && !spec.nullable)
    ensures Clean(spec, v).Ok? <==>
      (spec.kind == CharField && v.Str?) || (spec.kind == ClientIDsField && v == List([]))
      || (spec.kind == ArgumentsField && v == Dict(map[]))
  {
    assert Clean(spec, v) == CheckField(spec.kind, v);
    match spec.kind
    case EmailField =>
      if v.Str? {
        assert !EmailMatches(v.s) by { EmailMatchesIff(v.s); }
      }
    case DateField =>
      if v.Str? {
        assert ParseDate(v.s).None? by { SplitNoSeparator(v.s, '.'); }
      }
    case BirthDayField =>
      if v.Str? {
        assert ParseDate(v.s).None? by { SplitNoSeparator(v.s, '.'); }
      }
    case PhoneField =>
      assert v == Dict(map[]) || v == Str("") || v == Str(" ") || v == Null || v == List([]) || v == Tuple([]);
      if v == Str(" ") {
        assert !AllDigits(" ") by { assert !IsDigit(" "[0]); }
      } else if v == Null {
        assert !AllDigits("None") by { assert !IsDigit("None"[0]); }
      }
      assert CheckPhone(v).Err?;
    case _ =>
  }
}
