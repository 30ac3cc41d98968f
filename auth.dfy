/**
 * `check_auth`: the token must be the hex SHA-512 digest of a credential. An administrator's
 * credential is the current hour stamp followed by the admin salt; anyone else's is account, login
 * and the general salt run together. The digest and the clock are parameters of the model.
 *
 * `CheckAuthErrors`, `CheckAuthAccepts`, `NoTokenNoAccess` and `OrdinaryAuthTimeless` write the
 * rule down case by case; the substance is in `HourStampInjective`, `AdminAuthWithinHour` and
 * `AdminTokenExpires`: an administrator's token is good for exactly one clock hour.
 */
module Auth {
  import opened Outcomes
  import opened Text
  import opened Calendar
  import opened ApiConstants

  /** `datetime.datetime.now()`, down to the second. */
  datatype Moment = Moment(year: int, month: int, day: int, hour: int, minute: int, second: int)

  predicate ValidMoment(m: Moment)
  {
    ValidDate(Date(m.year, m.month, m.day)) && 0 <= m.hour < 24 && 0 <= m.minute < 60 && 0 <= m.second < 60
  }

  /** The attributes `check_auth` reads; `None` is an attribute that holds no text. */
  datatype Envelope = Envelope(account: Option<string>, login: Option<string>, token: Option<string>)

  /** The `is_admin` property of an instance. */
  predicate IsAdmin(env: Envelope)
  {
    env.login == Some(ADMIN_LOGIN)
  }

  /** `strftime("%Y%m%d%H")`, which Python 2 refuses for years before 1900. */
  function HourStamp(m: Moment): (r: string)
    requires ValidMoment(m) && m.year >= 1900
    ensures |r| == 10 && AllDigits(r)
  {
    Pad4(m.year) + Pad2(m.month) + Pad2(m.day) + Pad2(m.hour)
  }

  /** The stamp keeps year, month, day and hour, and forgets minute and second. */
  lemma HourStampInjective(m1: Moment, m2: Moment)
    requires ValidMoment(m1) && m1.year >= 1900
    requires ValidMoment(m2) && m2.year >= 1900
    ensures HourStamp(m1) == HourStamp(m2) <==>
      (m1.year, m1.month, m1.day, m1.hour) == (m2.year, m2.month, m2.day, m2.hour)
  {
    if HourStamp(m1) == HourStamp(m2) {
      StampParts(Pad4(m1.year), Pad2(m1.month), Pad2(m1.day), Pad2(m1.hour));
      StampParts(Pad4(m2.year), Pad2(m2.month), Pad2(m2.day), Pad2(m2.hour));
    }
  }

  /** The four fields of a stamp can be cut back out of it. */
  lemma StampParts(y: string, m: string, d: string, h: string)
    requires |y| == 4 && |m| == 2 && |d| == 2 && |h| == 2
    ensures var s := y + m + d + h; s[..4] == y && s[4..6] == m && s[6..8] == d && s[8..] == h
  {
  }

  /**
   * `check_auth(request)` at time `now`, with `sha512` the hex digest function: `Ok(b)` is the
   * returned boolean, `Err(e)` the exception raised (`ValueError` from `strftime` before 1900,
   * `TypeError` from adding `None` to text).
   */
  function CheckAuth(env: Envelope, now: Moment, sha512: string -> string): Result<bool, string>
    requires ValidMoment(now)
  {
    if IsAdmin(env) then
      if now.year < 1900 then Err("ValueError")
      else Ok(Some(sha512(HourStamp(now) + ADMIN_SALT)) == env.token)
    else if env.account.None? || env.login.None? then Err("TypeError")
    else Ok(Some(sha512(env.account.value + env.login.value + SALT)) == env.token)
  }

  /** The two ways `check_auth` raises, and no other. */
  lemma CheckAuthErrors(env: Envelope, now: Moment, sha512: string -> string)
    requires ValidMoment(now)
    ensures CheckAuth(env, now, sha512).Err? <==>
      (IsAdmin(env) && now.year < 1900) || (!IsAdmin(env) && (env.account.None? || env.login.None?))
    ensures CheckAuth(env, now, sha512) == Err("ValueError") <==> IsAdmin(env) && now.year < 1900
  {
  }

  /**
   * When `check_auth` answers, it lets in exactly the holder of the right digest: for the login
   * `admin`, that of the hour stamp followed by `42`; for anyone else, that of account, login and
   * `Otus` run together.
   */
  lemma CheckAuthAccepts(env: Envelope, now: Moment, sha512: string -> string)
    requires ValidMoment(now)
    ensures env.login == Some("admin") && now.year >= 1900 ==>
      CheckAuth(env, now, sha512).Ok?
      && (CheckAuth(env, now, sha512).value <==> env.token == Some(sha512(HourStamp(now) + "42")))
    ensures env.login != Some("admin") && env.account.Some? && env.login.Some? ==>
      CheckAuth(env, now, sha512).Ok?
      && (CheckAuth(env, now, sha512).value <==> env.token == Some(sha512(env.account.value + env.login.value + "Otus")))
  {
  }

  /** Without a token nobody is let in, whatever the digest function. */
  lemma NoTokenNoAccess(env: Envelope, now: Moment, sha512: string -> string)
    requires ValidMoment(now) && env.token.None?
    ensures CheckAuth(env, now, sha512) != Ok(true)
  {
  }

  /** An ordinary user's answer does not depend on the clock. */
  lemma OrdinaryAuthTimeless(env: Envelope, now1: Moment, now2: Moment, sha512: string -> string)
    requires ValidMoment(now1) && ValidMoment(now2) && !IsAdmin(env)
    ensures CheckAuth(env, now1, sha512) == CheckAuth(env, now2, sha512)
  {
  }

  /** An ordinary credential is the concatenation only: accounts and logins that run together the same way share a token. */
  lemma OrdinaryCredentialIsConcatenation(env1: Envelope, env2: Envelope, now: Moment, sha512: string -> string)
    requires ValidMoment(now) && !IsAdmin(env1) && !IsAdmin(env2)
    requires env1.account.Some? && env1.login.Some? && env2.account.Some? && env2.login.Some?
    requires env1.account.value + env1.login.value == env2.account.value + env2.login.value
    requires env1.token == env2.token
    ensures CheckAuth(env1, now, sha512) == CheckAuth(env2, now, sha512)
  {
    assert env1.account.value + env1.login.value + SALT == env2.account.value + env2.login.value + SALT;
  }

  /** Within one hour the administrator's answer stays the same. */
  lemma AdminAuthWithinHour(env: Envelope, now1: Moment, now2: Moment, sha512: string -> string)
    requires ValidMoment(now1) && ValidMoment(now2) && IsAdmin(env)
    requires (now1.year, now1.month, now1.day, now1.hour) == (now2.year, now2.month, now2.day, now2.hour)
    ensures CheckAuth(env, now1, sha512) == CheckAuth(env, now2, sha512)
  {
    if now1.year >= 1900 {
      HourStampInjective(now1, now2);
    }
  }

  /**
   * An administrator's token that works in one clock hour is refused in any other hour, as long as
   * the digest does not collide on the two hours' credentials (different hours give different credentials).
   */
  lemma AdminTokenExpires(env: Envelope, now1: Moment, now2: Moment, sha512: string -> string)
    requires ValidMoment(now1) && ValidMoment(now2) && IsAdmin(env)
    requires now1.year >= 1900 && now2.year >= 1900
    requires HourStamp(now1) + ADMIN_SALT != HourStamp(now2) + ADMIN_SALT ==>
      sha512(HourStamp(now1) + ADMIN_SALT) != sha512(HourStamp(now2) + ADMIN_SALT)
    requires (now1.year, now1.month, now1.day, now1.hour) != (now2.year, now2.month, now2.day, now2.hour)
    requires CheckAuth(env, now1, sha512) == Ok(true)
    ensures CheckAuth(env, now2, sha512) == Ok(false)
  {
    HourStampInjective(now1, now2);
    var s1 := HourStamp(now1) + ADMIN_SALT;
    var s2 := HourStamp(now2) + ADMIN_SALT;
    assert s1[..10] == HourStamp(now1) && s2[..10] == HourStamp(now2);
    assert s1 != s2;
  }

  /** The sample envelopes written in the module. */
  const SAMPLE_USER: Envelope := Envelope(Some("horns&hoofs"), Some("h&f"),
    Some("55cc9ce545bcd144300fe9efc28e65d415b923ebb6be1e19d2750a2c03e80dd209a27954dca045e5bb12418e7d89b6d718a9e35af3"))
  const SAMPLE_ADMIN: Envelope := Envelope(Some("horns&hoofs"), Some("admin"),
    Some("d3573aff1555cd67dccf21b95fe8c4dc8732f33fd4e32461b7fe6a71d83c947688515e36774c00fb630b039fe2223c991f045f13f2"))

  /** A SHA-512 hex digest has 128 characters; the sample tokens have 106, so neither sample is ever let in. */
  lemma SampleTokensNeverAuthenticate(now: Moment, sha512: string -> string)
    requires forall a: string :: |sha512(a)| == 128
    requires ValidMoment(now)
    ensures CheckAuth(SAMPLE_USER, now, sha512) != Ok(true)
    ensures CheckAuth(SAMPLE_ADMIN, now, sha512) != Ok(true)
  {
    assert |SAMPLE_USER.token.value| == 106;
    assert |SAMPLE_ADMIN.token.value| == 106;
  }
}
