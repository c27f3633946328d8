/** The reconciliation report (`compare_beneficiaries`, `compare_claims`):
    beneficiaries missing from or extra in the new snapshot, beneficiaries
    whose birth date, sex or ESRD indicator differ, claims missing from the
    new snapshot, and claims whose first-line payment differs. Every value
    comparison is `IS DISTINCT FROM`. Column identifiers are
    case-insensitive in SQL; the model spells them in upper case. */
module Compare {
  import opened Sql
  import opened Table
  import opened Join
  import opened Schema
  import Text
  import Audit
  import Financial
  import Profiler

  // ---------------------------------------------------------------------
  // Beneficiaries

  /** `missing_df`: (id, year) of every source row with no target partner. */
  function MissingBeneficiaries(src: seq<Row>, target: seq<Row>): seq<Key>
  {
    Keys(Profiler.Orphans(src, target, BeneficiaryKey), BeneficiaryKey)
  }

  /** `extra_df`: the same with the snapshots' roles swapped. */
  function ExtraBeneficiaries(src: seq<Row>, target: seq<Row>): seq<Key>
  {
    Keys(Profiler.Extras(src, target, BeneficiaryKey), BeneficiaryKey)
  }

  lemma {:induction false} KeysMembers(t: seq<Row>, cols: seq<string>)
    ensures forall k :: k in Keys(t, cols) <==> exists x :: x in t && KeyOf(x, cols) == k
  {
    forall k | exists x :: x in t && KeyOf(x, cols) == k ensures k in Keys(t, cols) {
      var x :| x in t && KeyOf(x, cols) == k;
      var i :| 0 <= i < |t| && t[i] == x;
      assert Keys(t, cols)[i] == k;
    }
  }

  /** A key is missing exactly when some source row carries it and no
      target row matches it; a key without NULLs is never both missing and
      extra; swapping the snapshots swaps the two lists. */
  lemma {:induction false} BeneficiaryGaps(src: seq<Row>, target: seq<Row>)
    ensures forall k :: k in MissingBeneficiaries(src, target) <==>
      exists x :: x in src && KeyOf(x, BeneficiaryKey) == k
        && forall o :: o in target ==> !Matches(k, KeyOf(o, BeneficiaryKey))
    ensures forall k :: k in MissingBeneficiaries(src, target) && k in ExtraBeneficiaries(src, target) ==>
      !NonNullKey(k)
    ensures MissingBeneficiaries(target, src) == ExtraBeneficiaries(src, target)
  {
    Profiler.OrphansAndExtras(src, target, BeneficiaryKey);
    KeysMembers(Profiler.Orphans(src, target, BeneficiaryKey), BeneficiaryKey);
    KeysMembers(Profiler.Extras(src, target, BeneficiaryKey), BeneficiaryKey);
    forall k | k in MissingBeneficiaries(src, target) && k in ExtraBeneficiaries(src, target)
      ensures !NonNullKey(k)
    {
      MatchesMeaning(k, k);
    }
  }

  /** The three attributes the beneficiary comparison looks at. */
  const CriticalColumns: seq<string> := ["BENE_BIRTH_DT", "BENE_SEX_IDENT_CD", "BENE_ESRD_IND"]

  /** `mismatch_df`: joined rows differing on a critical attribute. */
  function BeneficiaryMismatches(src: seq<Row>, target: seq<Row>): seq<Pair>
  {
    Where(InnerJoin(src, target, BeneficiaryKey), Profiler.AnyDiffers(CriticalColumns))
  }

  /** The two rows differ, NULL-aware, on a critical attribute. */
  predicate CriticalDiff(a: Row, b: Row)
  {
    exists c :: c in CriticalColumns && IsDistinctFrom(Get(a, c), Get(b, c))
  }

  lemma {:induction false} CriticalDiffIsAnyDiffers(a: Row, b: Row)
    ensures Profiler.AnyDiffers(CriticalColumns)(Pair(Some(a), Some(b))) <==> CriticalDiff(a, b)
  {
    var p := Pair(Some(a), Some(b));
    assert forall c :: Profiler.DiffersOn(c)(p) == IsDistinctFrom(Get(a, c), Get(b, c));
  }

  lemma {:induction false} JoinedIff(src: seq<Row>, target: seq<Row>, keys: seq<string>, a: Row, b: Row)
    ensures Pair(Some(a), Some(b)) in InnerJoin(src, target, keys) <==>
      a in src && b in target && Matches(KeyOf(a, keys), KeyOf(b, keys))
  {
    InnerJoinMeaning(src, target, keys);
  }

  lemma {:induction false} MismatchPair(src: seq<Row>, target: seq<Row>, a: Row, b: Row)
    ensures Pair(Some(a), Some(b)) in BeneficiaryMismatches(src, target) <==>
      a in src && b in target && Matches(KeyOf(a, BeneficiaryKey), KeyOf(b, BeneficiaryKey)) && CriticalDiff(a, b)
  {
    CriticalDiffIsAnyDiffers(a, b);
    JoinedIff(src, target, BeneficiaryKey, a, b);
  }

  /** A pair is reported exactly when the two rows share a key without
      NULLs and differ, NULL-aware, on one of the three attributes. */
  lemma {:induction false} BeneficiaryMismatchMeaning(src: seq<Row>, target: seq<Row>)
    ensures forall p :: p in BeneficiaryMismatches(src, target) ==> p.left.Some? && p.right.Some?
    ensures forall a, b :: Pair(Some(a), Some(b)) in BeneficiaryMismatches(src, target) <==>
      a in src && b in target && Matches(KeyOf(a, BeneficiaryKey), KeyOf(b, BeneficiaryKey)) && CriticalDiff(a, b)
  {
    forall p | p in BeneficiaryMismatches(src, target) ensures p.left.Some? && p.right.Some? {
      InnerJoinMeaning(src, target, BeneficiaryKey);
    }
    forall a, b ensures Pair(Some(a), Some(b)) in BeneficiaryMismatches(src, target) <==>
      a in src && b in target && Matches(KeyOf(a, BeneficiaryKey), KeyOf(b, BeneficiaryKey)) && CriticalDiff(a, b)
    {
      MismatchPair(src, target, a, b);
    }
  }

  /** Rows that agree on the three attributes are never reported, whatever
      else differs. */
  lemma {:induction false} OtherColumnsIgnored(src: seq<Row>, target: seq<Row>, a: Row, b: Row)
    requires forall c :: c in CriticalColumns ==> Get(a, c) == Get(b, c)
    ensures Pair(Some(a), Some(b)) !in BeneficiaryMismatches(src, target)
  {
  }

  /** A race code that changed in the migration goes unreported. */
  lemma {:induction false} RaceChangeUnreported(a: Row)
    requires Get(a, "BENE_RACE_CD") == Some(Str("1"))
    ensures var b := a["BENE_RACE_CD" := Some(Str("2"))];
      Pair(Some(a), Some(b)) !in BeneficiaryMismatches([a], [b])
      && IsDistinctFrom(Get(a, "BENE_RACE_CD"), Get(b, "BENE_RACE_CD"))
  {
    var b := a["BENE_RACE_CD" := Some(Str("2"))];
    OtherColumnsIgnored([a], [b], a, b);
  }

  /** The three attributes are never key spellings, so the column profiler
      compares them whenever the source table has them. */
  lemma {:induction false} CriticalColumnsCompared(catalog: seq<string>)
    requires forall c :: c in CriticalColumns ==> c in catalog
    ensures forall c :: c in CriticalColumns ==> c in Profiler.ComparedColumns(catalog, BeneficiaryKey)
  {
    forall c, k | c in CriticalColumns && k in BeneficiaryKey
      ensures c != Text.Upper(k) && c != Text.Lower(k)
    {
      assert |c| > |k|;
    }
  }

  /** Every reported beneficiary mismatch is also in the profiler's
      mismatch view of the same tables. */
  lemma {:induction false} MismatchesWithinProfiler(src: seq<Row>, target: seq<Row>, catalog: seq<string>,
                                 summary: seq<Profiler.SummaryRow>)
    requires forall c :: c in CriticalColumns ==> c in catalog
    requires Profiler.ErrorRanking(Profiler.ErrorRows(InnerJoin(src, target, BeneficiaryKey),
               Profiler.ComparedColumns(catalog, BeneficiaryKey), |src|), summary)
    ensures forall p :: p in BeneficiaryMismatches(src, target) ==>
      var v := Profiler.MismatchView(InnerJoin(src, target, BeneficiaryKey), summary);
      v.Some? && p in v.value
  {
    var ps := InnerJoin(src, target, BeneficiaryKey);
    var cols := Profiler.ComparedColumns(catalog, BeneficiaryKey);
    CriticalColumnsCompared(catalog);
    Profiler.MismatchViewComplete(ps, cols, |src|, summary);
    forall p | p in BeneficiaryMismatches(src, target)
      ensures var v := Profiler.MismatchView(ps, summary); v.Some? && p in v.value
    {
      var c :| c in CriticalColumns && Profiler.DiffersOn(c)(p);
      assert c in cols;
    }
  }

  /** `IS DISTINCT FROM` against the audit's COALESCE rule: every audit
      flag is a distinct pair, and a distinct pair goes unflagged exactly
      when one side is NULL and the other is the column's default. */
  lemma {:induction false} DistinctVersusCoalesce(col: Column, s: Cell, n: Cell)
    ensures Audit.FieldFlag(col, s, n) == 1 ==> IsDistinctFrom(s, n)
    ensures (IsDistinctFrom(s, n) && Audit.FieldFlag(col, s, n) == 0) <==>
      (s.None? && n == Some(Default(col.kind))) || (n.None? && s == Some(Default(col.kind)))
  {
  }

  /** NULL against an empty string: a mismatch here, no defect there. */
  lemma {:induction false} NullVersusEmptyText()
    ensures IsDistinctFrom(None, Some(Str("")))
    ensures Audit.FieldFlag(Column("BENE_BIRTH_DT", TextKind), None, Some(Str(""))) == 0
  {
  }

  // ---------------------------------------------------------------------
  // Claims

  /** `missing_df` of the claims: ids of source claims with no target
      partner. */
  function MissingClaims(src: seq<Row>, target: seq<Row>): seq<Key>
  {
    Keys(Profiler.Orphans(src, target, CarrierKey), CarrierKey)
  }

  /** A key is reported missing exactly when it is the key of a source
      claim that no target claim matches on `CLM_ID`. */
  lemma {:induction false} MissingClaimsMeaning(src: seq<Row>, target: seq<Row>, k: Key)
    ensures k in MissingClaims(src, target) <==>
      exists x :: x in src && KeyOf(x, CarrierKey) == k
        && (forall o :: o in target ==> !Matches(k, KeyOf(o, CarrierKey)))
  {
    var o := Profiler.Orphans(src, target, CarrierKey);
    Profiler.AntiJoinIsUnmatched(src, target, CarrierKey);
    KeysMember(o, CarrierKey, k);
  }

  /** `s.amt - n.amt`: NULL when either amount is. */
  function PaymentDiff(a: Cell, b: Cell): (d: Option<Number>)
    ensures d.Some? <==> NumberOf(a).Some? && NumberOf(b).Some?
  {
    match (NumberOf(a), NumberOf(b))
    case (Some(x), Some(y)) => Some(SubNum(x, y))
    case _ => None
  }

  /** One row of `payment_diff_df`. */
  datatype PaymentRow = PaymentRow(claim: Cell, srcPmt: Cell, newPmt: Cell, diff: Option<Number>)

  function PaymentRowOf(p: Pair): PaymentRow
  {
    var s := Get(Profiler.LeftRow(p), Profiler.FirstLineAmount);
    var n := Get(Profiler.RightRow(p), Profiler.FirstLineAmount);
    PaymentRow(Get(Profiler.LeftRow(p), "CLM_ID"), s, n, PaymentDiff(s, n))
  }

  /** The joined claims whose first-line payments are distinct. */
  function PaymentPairs(src: seq<Row>, target: seq<Row>): seq<Pair>
  {
    Where(InnerJoin(src, target, CarrierKey), Profiler.DiffersOn(Profiler.FirstLineAmount))
  }

  /** `payment_diff_df`. */
  function PaymentMismatches(src: seq<Row>, target: seq<Row>): (v: seq<PaymentRow>)
    ensures |v| == |PaymentPairs(src, target)|
  {
    var kept := PaymentPairs(src, target);
    seq(|kept|, i requires 0 <= i < |kept| => PaymentRowOf(kept[i]))
  }

  /** The two counts `compare_claims` reports. */
  datatype ClaimsReport = ClaimsReport(missingClaims: nat, paymentMismatches: nat)

  function CompareClaims(src: seq<Row>, target: seq<Row>): ClaimsReport
  {
    ClaimsReport(|MissingClaims(src, target)|, |PaymentMismatches(src, target)|)
  }

  /** Every listed payment shows two distinct amounts, NULL counting as a
      value, and `diff` is source minus target when both are numbers. */
  lemma {:induction false} PaymentListedSound(src: seq<Row>, target: seq<Row>)
    ensures forall row :: row in PaymentMismatches(src, target) ==>
      IsDistinctFrom(row.srcPmt, row.newPmt)
      && (row.diff.Some? ==> row.diff.value == SubNum(NumberOf(row.srcPmt).value, NumberOf(row.newPmt).value))
  {
    var kept := PaymentPairs(src, target);
    var v := PaymentMismatches(src, target);
    forall row | row in v ensures IsDistinctFrom(row.srcPmt, row.newPmt) {
      var i :| 0 <= i < |v| && v[i] == row;
      assert kept[i] in kept;
    }
  }

  lemma {:induction false} PaymentPairListed(src: seq<Row>, target: seq<Row>, a: Row, b: Row)
    requires a in src && b in target && Matches(KeyOf(a, CarrierKey), KeyOf(b, CarrierKey))
    requires IsDistinctFrom(Get(a, Profiler.FirstLineAmount), Get(b, Profiler.FirstLineAmount))
    ensures PaymentRowOf(Pair(Some(a), Some(b))) in PaymentMismatches(src, target)
  {
    var kept := PaymentPairs(src, target);
    var p := Pair(Some(a), Some(b));
    Profiler.PairJoined(src, target, CarrierKey, a, b);
    assert Profiler.DiffersOn(Profiler.FirstLineAmount)(p);
    assert p in kept;
    var i :| 0 <= i < |kept| && kept[i] == p;
    assert PaymentMismatches(src, target)[i] == PaymentRowOf(p);
  }

  /** Every pair of claims with the same non-NULL id and distinct
      first-line payments is listed, a NULL facing a number included. */
  lemma {:induction false} PaymentListedComplete(src: seq<Row>, target: seq<Row>)
    ensures forall a, b :: (a in src && b in target && Matches(KeyOf(a, CarrierKey), KeyOf(b, CarrierKey))
      && IsDistinctFrom(Get(a, Profiler.FirstLineAmount), Get(b, Profiler.FirstLineAmount))) ==>
        PaymentRowOf(Pair(Some(a), Some(b))) in PaymentMismatches(src, target)
  {
    forall a, b | a in src && b in target && Matches(KeyOf(a, CarrierKey), KeyOf(b, CarrierKey))
      && IsDistinctFrom(Get(a, Profiler.FirstLineAmount), Get(b, Profiler.FirstLineAmount))
      ensures PaymentRowOf(Pair(Some(a), Some(b))) in PaymentMismatches(src, target)
    {
      PaymentPairListed(src, target, a, b);
    }
  }

  /** The profiler's `<>` view of the same amount never lists more claims
      than this report counts. */
  lemma {:induction false} AmountViewWithinPayments(src: seq<Row>, target: seq<Row>)
    ensures |Profiler.AmountDifferences(src, target)| <= CompareClaims(src, target).paymentMismatches
  {
    var ps := InnerJoin(src, target, CarrierKey);
    forall p | p in ps && Profiler.AmountDiffers(p)
      ensures Profiler.DiffersOn(Profiler.FirstLineAmount)(p)
    {
      Profiler.NullAmountOnlyInErrorCounts(p);
    }
    WhereMonotone(ps, Profiler.AmountDiffers, Profiler.DiffersOn(Profiler.FirstLineAmount));
  }

  /** The report's `diff` runs the other way from the financial tables'
      delta, which is target minus source. */
  lemma {:induction false} PaymentDiffOpposesDelta(a: Row, b: Row)
    requires NumberOf(Get(a, Profiler.FirstLineAmount)).Some? && NumberOf(Get(a, Profiler.FirstLineAmount)).value.Fin?
    requires NumberOf(Get(b, Profiler.FirstLineAmount)).Some? && NumberOf(Get(b, Profiler.FirstLineAmount)).value.Fin?
    ensures var d := PaymentDiff(Get(a, Profiler.FirstLineAmount), Get(b, Profiler.FirstLineAmount));
      var m := Financial.MoneyOf(Some(a), Some(b), Profiler.FirstLineAmount);
      d.Some? && d.value.Fin? && m.delta.Some? && d.value.r == -m.delta.value
  {
  }

  /** Adding a claim to the target leaves the missing list alone when no
      source claim shares its id. */
  lemma {:induction false} UnmatchedIgnoresStranger(t: seq<Row>, other: seq<Row>, x: Row, cols: seq<string>)
    requires forall a :: a in t ==> !Matches(KeyOf(a, cols), KeyOf(x, cols))
    ensures Unmatched(t, other + [x], cols) == Unmatched(t, other, cols)
  {
    if |t| > 0 {
      var init := t[..|t| - 1];
      assert forall a :: a in init ==> a in t;
      UnmatchedIgnoresStranger(init, other, x, cols);
      var last := t[|t| - 1];
      assert last in t;
      MatchingStranger(other, x, cols, KeyOf(last, cols));
    }
  }

  lemma {:induction false} MatchingStranger(r: seq<Row>, x: Row, cols: seq<string>, k: Key)
    requires !Matches(k, KeyOf(x, cols))
    ensures MatchingRows(r + [x], cols, k) == MatchingRows(r, cols, k)
  {
    assert (r + [x])[..|r|] == r;
  }

  lemma {:induction false} LeftPairsIgnoreStranger(l: seq<Row>, r: seq<Row>, x: Row, cols: seq<string>)
    requires forall a :: a in l ==> !Matches(KeyOf(a, cols), KeyOf(x, cols))
    ensures LeftPairs(l, r + [x], cols) == LeftPairs(l, r, cols)
  {
    if |l| > 0 {
      var init := l[..|l| - 1];
      assert forall a :: a in init ==> a in l;
      LeftPairsIgnoreStranger(init, r, x, cols);
      var last := l[|l| - 1];
      assert last in l;
      MatchingStranger(r, x, cols, KeyOf(last, cols));
    }
  }

  /** A claim only the new snapshot has changes nothing in the claims
      report, though the profiler lists it as an extra row. */
  lemma {:induction false} NewOnlyClaimInvisible(src: seq<Row>, target: seq<Row>, x: Row)
    requires forall a :: a in src ==> !Matches(KeyOf(a, CarrierKey), KeyOf(x, CarrierKey))
    ensures CompareClaims(src, target + [x]) == CompareClaims(src, target)
    ensures x in Profiler.Extras(src, target + [x], CarrierKey)
  {
    Profiler.AntiJoinIsUnmatched(src, target + [x], CarrierKey);
    Profiler.AntiJoinIsUnmatched(src, target, CarrierKey);
    UnmatchedIgnoresStranger(src, target, x, CarrierKey);
    LeftPairsIgnoreStranger(src, target, x, CarrierKey);
    Profiler.AntiJoinIsUnmatched(target + [x], src, CarrierKey);
    forall o | o in src ensures !Matches(KeyOf(x, CarrierKey), KeyOf(o, CarrierKey)) {
      MatchesSymmetric(KeyOf(x, CarrierKey), KeyOf(o, CarrierKey));
    }
    assert x in target + [x];
  }
}
