/** The module-level constants of the scoring API. */
module ApiConstants {

  const SALT: string := "Otus"
  const ADMIN_LOGIN: string := "admin"
  const ADMIN_SALT: string := "42"

  const OK: int := 200
  const BAD_REQUEST: int := 400
  const FORBIDDEN: int := 403
  const NOT_FOUND: int := 404
  const INVALID_REQUEST: int := 422
  const INTERNAL_ERROR: int := 500

  const ERRORS: map<int, string> := map[
    BAD_REQUEST := "Bad Request",
    FORBIDDEN := "Forbidden",
    NOT_FOUND := "Not Found",
    INVALID_REQUEST := "Invalid Request",
    INTERNAL_ERROR := "Internal Server Error"
  ]

  const UNKNOWN: int := 0
  const MALE: int := 1
  const FEMALE: int := 2

  const GENDERS: map<int, string> := map[UNKNOWN := "unknown", MALE := "male", FEMALE := "female"]
}
