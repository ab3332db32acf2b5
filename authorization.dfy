/**
 * AuthorizationUtils.checkAuthorization: the authenticated principal's name
 * (the account id as text, taken from the token) must equal the path id
 * rendered with String.valueOf.
 */
module Authorization {
  import opened Wrappers
  import opened Failures
  import opened Text

  /** Returns normally when the principal is the path id, else a ForbiddenException. */
  function CheckAuthorization(userId: int, principal: string): (r: Result<()>)
    ensures r.Ok? <==> principal == Decimal(userId)
    ensures r.Err? ==> r.error == Forbidden
  {
    if principal == Decimal(userId) then Ok(()) else Err(Forbidden)
  }

  /** A principal that passes for an id parses back to that id. */
  lemma AuthorizedPrincipalParses(userId: int, principal: string)
    requires CheckAuthorization(userId, principal).Ok?
    ensures ParseLong(principal) == Some(userId)
  {
    ParseLongOfDecimal(userId);
  }

  /** A principal passes for at most one id. */
  lemma AuthorizesOneId(m: int, n: int, principal: string)
    requires CheckAuthorization(m, principal).Ok? && CheckAuthorization(n, principal).Ok?
    ensures m == n
  {
    DecimalInjective(m, n);
  }

  /** The comparison is on text: "007" and "+7" parse to 7 but are refused for id 7. */
  lemma TextualComparison()
    ensures ParseLong("007") == Some(7) && CheckAuthorization(7, "007") == Err(Forbidden)
    ensures ParseLong("+7") == Some(7) && CheckAuthorization(7, "+7") == Err(Forbidden)
    ensures CheckAuthorization(7, "7") == Ok(())
  {
    assert Decimal(7) == "7";
    assert "007"[..2] == "00" && "00"[..1] == "0" && "0"[..0] == "";
    assert DigitsValue("00") == 0;
    assert "+7"[1..] == "7";
  }
}
