/**
 * The three ways the repositories turn a query's rows into an answer:
 * singleResult(), firstResult(), and an Optional that is empty for no rows.
 */
module Panache {
  import opened Wrappers
  import opened Failures

  /**
   * singleResult(): the one matching row.  No row is a NoResultException,
   * which every caller catches (None); two or more rows are a
   * NonUniqueResultException, which no caller catches.
   */
  function SingleResult<T>(rows: seq<T>): (r: Result<Option<T>>)
    ensures r == Ok(None) <==> rows == []
    ensures r.Ok? && r.value.Some? <==> |rows| == 1
    ensures r.Ok? && r.value.Some? ==> r.value.value == rows[0]
    ensures r.Err? ==> r.error == NonUniqueResult
  {
    if rows == [] then Ok(None)
    else if |rows| == 1 then Ok(Some(rows[0]))
    else Err(NonUniqueResult)
  }

  /** firstResult(): the first row, or null. */
  function FirstResult<T>(rows: seq<T>): (r: Option<T>)
    ensures r.None? <==> rows == []
    ensures r.Some? ==> r.value == rows[0]
  {
    if rows == [] then None else Some(rows[0])
  }

  /** Optional.ofNullable(rows.isEmpty() ? null : rows). */
  function NonEmpty<T>(rows: seq<T>): (r: Option<seq<T>>)
    ensures r.None? <==> rows == []
    ensures r.Some? ==> r.value == rows
  {
    if rows == [] then None else Some(rows)
  }
}
