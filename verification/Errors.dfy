/** Go errors as far as pgdb inspects them: plain ones, driver errors that carry an
    SQLSTATE, and errors.Join of several. */
module Errors {
  import opened Wrappers

  datatype Error =
    | Plain(msg: string)
    | Sql(code: string)
    | Joined(first: Error, rest: Option<Error>)

  /** errors.Join(e, rollbackErr), where the second error may be nil. */
  function Join(e: Error, other: Option<Error>): Error {
    Joined(e, other)
  }

  /** errors.AsType: the first error with an SQLSTATE, depth first. */
  function FirstSql(e: Error): Option<string> {
    match e
    case Plain(_) => None
    case Sql(code) => Some(code)
    case Joined(first, rest) =>
      if FirstSql(first).Some? then FirstSql(first)
      else match rest case None => None case Some(r) => FirstSql(r)
  }

  function SQLState(e: Error): string {
    match FirstSql(e) case None => "" case Some(code) => code
  }

  /** errors.Is, for targets compared by value. */
  predicate Is(e: Error, target: Error) {
    e == target ||
    (e.Joined? && (Is(e.first, target) || (e.rest.Some? && Is(e.rest.value, target))))
  }

  predicate IsDeadlock(e: Error) {
    SQLState(e) == "40001" || SQLState(e) == "40P01"
  }
}
