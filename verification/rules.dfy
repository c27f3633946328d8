/** The business rule that decides whether a carrier line item is payable:
    `prcsg_ind = 'A' OR (prcsg_ind IN ('R', 'S') AND allow_chrg > 0)`,
    evaluated in three-valued logic and consumed by `CASE WHEN` / `WHERE`,
    which treat NULL as false. */
module Rules {
  import opened Sql

  const Accepted: Cell := Some(Str("A"))
  const Reduced: Cell := Some(Str("R"))
  const Suspended: Cell := Some(Str("S"))

  /** `prcsg_ind IN ('R', 'S')`. */
  function InReducedOrSuspended(ind: Cell): (r: Bool3)
    ensures r == Unknown3 <==> ind.None?
  {
    Or3(Eq3(ind, Reduced), Eq3(ind, Suspended))
  }

  /** The rule as the SQL writes it. */
  function Valid3(ind: Cell, allow: Cell): Bool3
  {
    Or3(Eq3(ind, Accepted), And3(InReducedOrSuspended(ind), Positive3(allow)))
  }

  /** `CASE WHEN <rule> THEN 'Valid' ELSE 'Denied/Invalid' END`. */
  predicate IsValid(ind: Cell, allow: Cell)
  {
    Holds(Valid3(ind, allow))
  }

  /** The rule in two-valued terms: accepted lines always count; reduced or
      suspended lines count only with a positive (or NaN) allowed charge. */
  predicate ValidReference(ind: Cell, allow: Cell)
  {
    ind == Accepted
    || ((ind == Reduced || ind == Suspended)
        && NumberOf(allow).Some? && (NumberOf(allow).value.NaN? || NumberOf(allow).value.r > 0.0))
  }

  /** The three-valued rule keeps exactly the lines the reference keeps. */
  lemma {:induction false} ValidIff(ind: Cell, allow: Cell)
    ensures IsValid(ind, allow) <==> ValidReference(ind, allow)
  {
  }

  /** A NULL indicator never validates a line, whatever its charge. */
  lemma {:induction false} NullIndicatorInvalid(allow: Cell)
    ensures !IsValid(None, allow)
  {
  }

  /** An accepted line is valid even with a NULL or zero allowed charge. */
  lemma {:induction false} AcceptedIgnoresCharge(allow: Cell)
    ensures IsValid(Accepted, allow)
  {
  }

  /** A reduced or suspended line with a NULL, zero or negative allowed
      charge is denied. */
  lemma {:induction false} ReducedNeedsPositiveCharge(ind: Cell, allow: Cell)
    requires ind == Reduced || ind == Suspended
    requires NumberOf(allow).None? || (NumberOf(allow).value.Fin? && NumberOf(allow).value.r <= 0.0)
    ensures !IsValid(ind, allow)
  {
  }

  /** Any other indicator value is denied. */
  lemma {:induction false} OtherIndicatorInvalid(ind: Cell, allow: Cell)
    requires ind != Accepted && ind != Reduced && ind != Suspended
    ensures !IsValid(ind, allow)
  {
  }
}
