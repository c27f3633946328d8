/** The beneficiary views: the death-year-aware missing/extra rule, the
    attribute-change view (null-aware) and the date-difference view
    (`<>`, which NULL silences). */
module Beneficiaries {
  import opened Sql
  import opened Text
  import opened Table
  import opened Schema
  import opened Audit
  import opened Join

  const BeneId := "DESYNPUF_ID"
  const Year := "YEAR"
  const DeathDate := "BENE_DEATH_DT"
  const BirthDate := "BENE_BIRTH_DT"
  const Sex := "BENE_SEX_IDENT_CD"
  const Race := "BENE_RACE_CD"
  const Esrd := "BENE_ESRD_IND"

  /** The text `'nan'` the ingestion wrote for an empty death date. */
  const NotDead: Cell := Some(Str("nan"))

  /** `left(s, n)`: the first `n` characters, or all of a shorter string. */
  function Left(s: string, n: nat): (r: string)
    ensures |r| <= n && StartsWith(s, r)
    ensures |s| >= n ==> |r| == n
  {
    if |s| <= n then s else s[..n]
  }

  /** `left(c, 4)` on a TEXT cell; a value of any other type cannot occur in
      a TEXT column and reads as NULL. */
  function LeftText(c: Cell, n: nat): (r: Option<string>)
    ensures r.Some? <==> c.Some? && c.value.Str?
  {
    if c.Some? && c.value.Str? then Some(Left(c.value.s, n)) else None
  }

  /** `x::text` of an INTEGER: its decimal rendering. */
  function IntText(i: int): (t: string)
    ensures i >= 0 ==> t == NatToString(i)
  {
    if i >= 0 then NatToString(i) else "-" + NatToString(-i)
  }

  /** `"YEAR"::text`; a non-integer value cannot occur in the INTEGER
      column and reads as NULL. */
  function YearText(c: Cell): (r: Option<string>)
    ensures r.Some? <==> c.Some? && c.value.Int?
  {
    if c.Some? && c.value.Int? then Some(IntText(c.value.i)) else None
  }

  /** `a <= b` on TEXT: NULL when either side is NULL. */
  function TextLe3(a: Option<string>, b: Option<string>): (r: Bool3)
    ensures r == True3 <==> a.Some? && b.Some? && StrLe(a.value, b.value)
  {
    if a.None? || b.None? then Unknown3 else FromBool(StrLe(a.value, b.value))
  }

  function IsNull3(c: Cell): (r: Bool3)
    ensures r == True3 <==> c.None?
  {
    FromBool(c.None?)
  }

  /** The `WHERE` of the missing (and, mirrored, the extra) query:
      `(n.id IS NULL AND s.death = 'nan') OR (n.id IS NULL AND
      left(s.death, 4) <= s."YEAR"::text)`. */
  predicate OneSidedCondition(p: Pair)
  {
    var unmatched := IsNull3(Side(p.right, BeneId));
    var s := p.left;
    Holds(Or3(
      And3(unmatched, Eq3(Side(s, DeathDate), NotDead)),
      And3(unmatched, TextLe3(LeftText(Side(s, DeathDate), 4), YearText(Side(s, Year))))))
  }

  /** The rows of `rows` the query reports against `other`. */
  function OneSided(rows: seq<Row>, other: seq<Row>): seq<Row>
  {
    var ls := Lefts(Where(LeftPairs(rows, other, BeneficiaryKey), OneSidedCondition));
    seq(|ls|, i requires 0 <= i < |ls| => if ls[i].Some? then ls[i].value else map[])
  }

  /** The death-date part of the rule in two-valued terms: the literal
      `'nan'`, or a death year that sorts as TEXT at or before the year. */
  predicate DeathRule(s: Row)
  {
    Get(s, DeathDate) == NotDead
    || (LeftText(Get(s, DeathDate), 4).Some? && YearText(Get(s, Year)).Some?
        && StrLe(LeftText(Get(s, DeathDate), 4).value, YearText(Get(s, Year)).value))
  }

  predicate NoPartner(s: Row, other: seq<Row>)
  {
    forall o :: o in other ==> !Matches(KeyOf(s, BeneficiaryKey), KeyOf(o, BeneficiaryKey))
  }

  /** A matched beneficiary-year always has a non-NULL id on the partner
      side, so the `IS NULL` test holds exactly for rows without a
      partner. */
  lemma {:induction false} PairCondition(rows: seq<Row>, other: seq<Row>, p: Pair)
    requires p in LeftPairs(rows, other, BeneficiaryKey)
    ensures OneSidedCondition(p) <==> NoPartner(p.left.value, other) && DeathRule(p.left.value)
  {
    var s := p.left.value;
    LeftSideMeaning(other, BeneficiaryKey, KeyOf(s, BeneficiaryKey));
    if p.right.Some? {
      var o := p.right.value;
      MatchesMeaning(KeyOf(s, BeneficiaryKey), KeyOf(o, BeneficiaryKey));
      assert KeyOf(o, BeneficiaryKey)[0] == Get(o, BeneId);
    }
  }

  lemma {:induction false} OneSidedSound(rows: seq<Row>, other: seq<Row>, s: Row)
    requires s in OneSided(rows, other)
    ensures s in rows && NoPartner(s, other) && DeathRule(s)
  {
    var w := Where(LeftPairs(rows, other, BeneficiaryKey), OneSidedCondition);
    var ls := Lefts(w);
    var i :| 0 <= i < |ls| && OneSided(rows, other)[i] == s;
    var p := w[i];
    assert p in w;
    PairCondition(rows, other, p);
  }

  lemma {:induction false} OneSidedComplete(rows: seq<Row>, other: seq<Row>, s: Row)
    requires s in rows && NoPartner(s, other) && DeathRule(s)
    ensures s in OneSided(rows, other)
  {
    var w := Where(LeftPairs(rows, other, BeneficiaryKey), OneSidedCondition);
    var p := Pair(Some(s), None);
    UnpartneredPair(rows, other, s);
    PairCondition(rows, other, p);
    assert p in w;
    var i :| 0 <= i < |w| && w[i] == p;
    assert Lefts(w)[i] == Some(s);
    assert OneSided(rows, other)[i] == s;
  }

  /** A row without a partner stands beside NULLs in the `LEFT JOIN`. */
  lemma {:induction false} UnpartneredPair(rows: seq<Row>, other: seq<Row>, s: Row)
    requires s in rows && NoPartner(s, other)
    ensures Pair(Some(s), None) in LeftPairs(rows, other, BeneficiaryKey)
  {
    LeftSideMeaning(other, BeneficiaryKey, KeyOf(s, BeneficiaryKey));
  }

  /** The missing rule reports exactly the source beneficiary-years with no
      new partner whose death date is `'nan'` or whose first four
      characters sort at or before the year. */
  lemma {:induction false} OneSidedMeaning(rows: seq<Row>, other: seq<Row>)
    ensures forall s :: s in OneSided(rows, other) <==> s in rows && NoPartner(s, other) && DeathRule(s)
  {
    forall s ensures s in OneSided(rows, other) <==> s in rows && NoPartner(s, other) && DeathRule(s) {
      if s in OneSided(rows, other) {
        OneSidedSound(rows, other, s);
      }
      if s in rows && NoPartner(s, other) && DeathRule(s) {
        OneSidedComplete(rows, other, s);
      }
    }
  }

  /** A NULL death date is never reported, not even for a beneficiary-year
      missing from the other snapshot: both comparisons are NULL. */
  lemma {:induction false} NullDeathNeverReported(rows: seq<Row>, other: seq<Row>, s: Row)
    requires Get(s, DeathDate).None?
    ensures s !in OneSided(rows, other)
  {
    OneSidedMeaning(rows, other);
  }

  /** An empty death date is reported whenever the year is present: the
      empty string sorts before every text. */
  lemma {:induction false} EmptyDeathReported(rows: seq<Row>, other: seq<Row>, s: Row)
    requires s in rows && NoPartner(s, other)
    requires Get(s, DeathDate) == Some(Str("")) && YearText(Get(s, Year)).Some?
    ensures s in OneSided(rows, other)
  {
    OneSidedMeaning(rows, other);
  }

  /** For a death date that starts with four digits and a four-digit year,
      the text comparison is the numeric comparison of the years. */
  lemma {:induction false} DeathYearNumeric(death: string, y: int)
    requires |death| >= 4 && AllDigits(death[..4]) && 1000 <= y <= 9999
    ensures StrLe(Left(death, 4), IntText(y)) <==> ParseNat(death[..4]) <= y
  {
    FourDigitYear(y);
    DigitsOrder(death[..4], NatToString(y));
    NatToStringRoundTrip(y);
  }

  /** Where the death date is not four digits the text comparison departs
      from the numeric one: `'999'` sorts after `'2008'`. */
  lemma {:induction false} ShortDeathYearIsText()
    ensures !StrLe(Left("999", 4), IntText(2008))
  {
    FourDigitYear(2008);
    assert NatToString(2008) == "2008";
  }

  datatype Finding = MissingInNew | PresentOnlyInNew

  /** One row of `vw_beneficiary_errors`. */
  datatype BeneError = BeneError(id: Cell, deathYear: Option<string>, year: Option<string>, finding: Finding)

  function ErrorOf(s: Row, f: Finding): BeneError
  {
    var death := Get(s, DeathDate);
    BeneError(Get(s, BeneId), if Holds(Eq3(death, NotDead)) then Some("") else LeftText(death, 4),
      YearText(Get(s, Year)), f)
  }

  function ErrorsOf(rows: seq<Row>, f: Finding): (es: seq<BeneError>)
    ensures |es| == |rows|
    ensures forall i :: 0 <= i < |rows| ==> es[i] == ErrorOf(rows[i], f)
  {
    seq(|rows|, i requires 0 <= i < |rows| => ErrorOf(rows[i], f))
  }

  /** `vw_beneficiary_errors`: the two directions combined by `UNION ALL`;
      the extra query is the missing query with the roles swapped. */
  function BeneficiaryErrors(src: seq<Row>, target: seq<Row>): seq<BeneError>
  {
    ErrorsOf(OneSided(src, target), MissingInNew) + ErrorsOf(OneSided(target, src), PresentOnlyInNew)
  }

  /** Every reported missing row stands for a source row the rule selects,
      every reported extra row for a new row the mirrored rule selects, and
      the counts add up: no row is merged away. */
  lemma {:induction false} ErrorReported(rows: seq<Row>, other: seq<Row>, f: Finding, s: Row)
    requires s in rows && NoPartner(s, other) && DeathRule(s)
    ensures ErrorOf(s, f) in ErrorsOf(OneSided(rows, other), f)
  {
    OneSidedComplete(rows, other, s);
    var m := OneSided(rows, other);
    var i :| 0 <= i < |m| && m[i] == s;
    assert ErrorsOf(m, f)[i] == ErrorOf(s, f);
  }

  lemma {:induction false} BeneficiaryErrorsMeaning(src: seq<Row>, target: seq<Row>)
    ensures |BeneficiaryErrors(src, target)| == |OneSided(src, target)| + |OneSided(target, src)|
    ensures forall s :: s in src && NoPartner(s, target) && DeathRule(s) ==>
      ErrorOf(s, MissingInNew) in BeneficiaryErrors(src, target)
    ensures forall n :: n in target && NoPartner(n, src) && DeathRule(n) ==>
      ErrorOf(n, PresentOnlyInNew) in BeneficiaryErrors(src, target)
  {
    var m := ErrorsOf(OneSided(src, target), MissingInNew);
    var x := ErrorsOf(OneSided(target, src), PresentOnlyInNew);
    assert forall e :: e in m ==> e in m + x;
    assert forall e :: e in x ==> e in m + x;
    forall s | s in src && NoPartner(s, target) && DeathRule(s)
      ensures ErrorOf(s, MissingInNew) in m
    {
      ErrorReported(src, target, MissingInNew, s);
    }
    forall n | n in target && NoPartner(n, src) && DeathRule(n)
      ensures ErrorOf(n, PresentOnlyInNew) in x
    {
      ErrorReported(target, src, PresentOnlyInNew, n);
    }
  }

  /** `vw_beneficiary_attribute_errors`: the inner join on (id, year) keeps a
      pair when birth date, sex, race or ESRD indicator IS DISTINCT FROM the
      other side's. */
  predicate AttributesChanged(p: Pair)
  {
    IsDistinctFrom(Side(p.left, BirthDate), Side(p.right, BirthDate))
    || IsDistinctFrom(Side(p.left, Sex), Side(p.right, Sex))
    || IsDistinctFrom(Side(p.left, Race), Side(p.right, Race))
    || IsDistinctFrom(Side(p.left, Esrd), Side(p.right, Esrd))
  }

  function AttributeErrors(src: seq<Row>, target: seq<Row>): seq<Pair>
  {
    Where(InnerJoin(src, target, BeneficiaryKey), AttributesChanged)
  }

  /** `vw_bene_dt_differences`: the inner join keeps a pair when
      `s.birth <> n.birth OR s.death <> n.death` is TRUE. */
  predicate DatesDiffer(p: Pair)
  {
    Holds(Or3(Neq3(Side(p.left, BirthDate), Side(p.right, BirthDate)),
      Neq3(Side(p.left, DeathDate), Side(p.right, DeathDate))))
  }

  function DateDifferences(src: seq<Row>, target: seq<Row>): seq<Pair>
  {
    Where(InnerJoin(src, target, BeneficiaryKey), DatesDiffer)
  }

  /** The attribute view lists a source and a target row exactly when they
      share (id, year) and their birth date, sex, race or ESRD indicator
      differ, NULL-aware. */
  lemma {:induction false} AttributeErrorsMeaning(src: seq<Row>, target: seq<Row>, a: Row, b: Row)
    ensures Pair(Some(a), Some(b)) in AttributeErrors(src, target) <==>
      a in src && b in target && Matches(KeyOf(a, BeneficiaryKey), KeyOf(b, BeneficiaryKey))
      && AttributesChanged(Pair(Some(a), Some(b)))
  {
    FilteredInnerJoin(src, target, BeneficiaryKey, AttributesChanged, a, b);
  }

  /** The date view lists a source and a target row exactly when they share
      (id, year) and their birth or death dates differ where both are
      present. */
  lemma {:induction false} DateDifferencesMeaning(src: seq<Row>, target: seq<Row>, a: Row, b: Row)
    ensures Pair(Some(a), Some(b)) in DateDifferences(src, target) <==>
      a in src && b in target && Matches(KeyOf(a, BeneficiaryKey), KeyOf(b, BeneficiaryKey))
      && DatesDiffer(Pair(Some(a), Some(b)))
  {
    FilteredInnerJoin(src, target, BeneficiaryKey, DatesDiffer, a, b);
  }

  /** Neither difference view lists a row without its partner. */
  lemma {:induction false} DifferenceViewsPaired(src: seq<Row>, target: seq<Row>, p: Pair)
    requires p in AttributeErrors(src, target) || p in DateDifferences(src, target)
    ensures p.left.Some? && p.right.Some?
  {
    InnerJoinMeaning(src, target, BeneficiaryKey);
  }

  lemma {:induction false} NullBirthDateSeenOnlyByAttributes(src: seq<Row>, target: seq<Row>, a: Row, b: Row)
    requires a in src && b in target && Matches(KeyOf(a, BeneficiaryKey), KeyOf(b, BeneficiaryKey))
    requires Get(a, BirthDate).Some? && Get(b, BirthDate).None?
    requires Get(a, DeathDate) == Get(b, DeathDate)
    ensures Pair(Some(a), Some(b)) in AttributeErrors(src, target)
    ensures Pair(Some(a), Some(b)) !in DateDifferences(src, target)
  {
    InnerJoinMeaning(src, target, BeneficiaryKey);
  }

  /** The two views agree on matched pairs whose birth and death dates are
      present on both sides: there `IS DISTINCT FROM` and `<>` coincide. */
  lemma {:induction false} DatesAgreeWhenPresent(p: Pair)
    requires p.left.Some? && p.right.Some?
    requires Get(p.left.value, BirthDate).Some? && Get(p.right.value, BirthDate).Some?
    requires Get(p.left.value, DeathDate).Some? && Get(p.right.value, DeathDate).Some?
    requires Get(p.left.value, DeathDate) == Get(p.right.value, DeathDate)
    ensures DatesDiffer(p) <==> IsDistinctFrom(Side(p.left, BirthDate), Side(p.right, BirthDate))
  {
  }
}
