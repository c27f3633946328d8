/** The claim-level views of the carrier reconciliation: the line-1
    business-rule view over the `CLM_ID` full outer join, the missing/extra
    claim view, and the carrier orphan table over the four claim key
    columns. */
module Claims {
  import opened Sql
  import opened Table
  import opened Schema
  import opened Audit
  import opened Join
  import opened Rules
  import opened Text

  const ClaimId := "CLM_ID"
  const LinePayment1 := "LINE_NCH_PMT_AMT_1"
  const LineIndicator1 := "LINE_PRCSG_IND_CD_1"
  const LineAllowed1 := "LINE_ALOWD_CHRG_AMT_1"
  const BeneId := "DESYNPUF_ID"
  const StateCode := "SP_STATE_CODE"
  const LookupCode := "code"
  const LookupName := "name"

  /** `COALESCE(a, b)` over two cells. */
  function FirstNonNull(a: Cell, b: Cell): (c: Cell)
    ensures c.Some? <==> a.Some? || b.Some?
    ensures a.Some? ==> c == a
  {
    if a.Some? then a else b
  }

  lemma {:induction false} ClaimKeyOf(r: Row)
    ensures KeyOf(r, CarrierKey) == [Get(r, ClaimId)]
  {
  }

  /** Joining on `CLM_ID` pairs two rows exactly when they carry the same
      non-NULL claim id. */
  lemma {:induction false} ClaimMatches(a: Row, b: Row)
    ensures Matches(KeyOf(a, CarrierKey), KeyOf(b, CarrierKey)) <==> Get(a, ClaimId).Some? && Get(a, ClaimId) == Get(b, ClaimId)
  {
    ClaimKeyOf(a);
    ClaimKeyOf(b);
    MatchesMeaning(KeyOf(a, CarrierKey), KeyOf(b, CarrierKey));
  }

  datatype Status = Matched | SrcOnly | NewOnly

  /** `record_status`: neither `WHEN` holds, so the status is NULL, when the
      one present side carries a NULL claim id. */
  function RecordStatus(p: Pair): Option<Status>
  {
    var s := Side(p.left, ClaimId).Some?;
    var n := Side(p.right, ClaimId).Some?;
    if s && n then Some(Matched)
    else if s then Some(SrcOnly)
    else if n then Some(NewOnly)
    else None
  }

  function ClaimJoin(src: seq<Row>, target: seq<Row>): seq<Pair>
  {
    FullOuterJoin(src, target, CarrierKey)
  }

  /** The statuses partition the claim join: a pair is Matched exactly when
      both sides are present, Src Only or New Only exactly when only that
      side is present with a claim id, and NULL exactly when the present
      side has a NULL claim id. */
  lemma {:induction false} StatusPartition(src: seq<Row>, target: seq<Row>)
    ensures forall p :: p in ClaimJoin(src, target) ==>
      (RecordStatus(p) == Some(Matched) <==> p.left.Some? && p.right.Some?)
      && (RecordStatus(p) == Some(SrcOnly) <==> p.left.Some? && p.right.None? && Get(p.left.value, ClaimId).Some?)
      && (RecordStatus(p) == Some(NewOnly) <==> p.left.None? && p.right.Some? && Get(p.right.value, ClaimId).Some?)
      && (RecordStatus(p).None? <==>
           (p.left.Some? && p.right.None? && Get(p.left.value, ClaimId).None?)
           || (p.left.None? && p.right.Some? && Get(p.right.value, ClaimId).None?))
  {
    FullOuterJoinMeaning(src, target, CarrierKey);
    forall p | p in ClaimJoin(src, target) && p.left.Some? && p.right.Some?
      ensures Get(p.left.value, ClaimId).Some? && Get(p.right.value, ClaimId).Some?
    {
      assert Pair(Some(p.left.value), Some(p.right.value)) == p;
      ClaimMatches(p.left.value, p.right.value);
    }
  }

  /** One row of `combined_claims` joined through the business-rule `CASE`.
      The indicator and the allowed charge come from the new side only. */
  datatype RuleRow = RuleRow(
    claim: Cell, status: Option<Status>, srcPayment: Number, newPayment: Number,
    indicator: Cell, allowed: Cell, valid: bool, variance: Number)

  function CombinedRow(p: Pair): RuleRow
  {
    var ind := Side(p.right, LineIndicator1);
    var allow := Side(p.right, LineAllowed1);
    var s := CoalesceNum(Side(p.left, LinePayment1));
    var n := CoalesceNum(Side(p.right, LinePayment1));
    RuleRow(FirstNonNull(Side(p.left, ClaimId), Side(p.right, ClaimId)), RecordStatus(p),
      s, n, ind, allow, IsValid(ind, allow), SubNum(s, n))
  }

  /** `WHERE business_rule_status = 'Valid' AND COALESCE(src_pmt, 0) <>
      COALESCE(new_pmt, 0)`. */
  predicate Kept(x: RuleRow)
  {
    x.valid && x.srcPayment != x.newPayment
  }

  predicate KeptPair(p: Pair)
  {
    Kept(CombinedRow(p))
  }

  function RuleRows(ps: seq<Pair>): (xs: seq<RuleRow>)
    ensures |xs| == |ps|
    ensures forall i :: 0 <= i < |ps| ==> xs[i] == CombinedRow(ps[i])
  {
    seq(|ps|, i requires 0 <= i < |ps| => CombinedRow(ps[i]))
  }

  /** The kept combined rows of `vw_claim_line_nch_pmt_amt_1_differences`
      before its four lookup joins; `BusinessRuleReport` adds those, and
      `BusinessRuleReportRows` shows they change only how often a row is
      listed. */
  function BusinessRuleView(src: seq<Row>, target: seq<Row>): seq<RuleRow>
  {
    RuleRows(Where(ClaimJoin(src, target), KeptPair))
  }

  /** The joined pair a reported row comes from. */
  lemma {:induction false} ReportedOrigin(src: seq<Row>, target: seq<Row>, x: RuleRow) returns (p: Pair)
    requires x in BusinessRuleView(src, target)
    ensures p in ClaimJoin(src, target) && KeptPair(p) && x == CombinedRow(p)
  {
    var ps := Where(ClaimJoin(src, target), KeptPair);
    var i :| 0 <= i < |ps| && RuleRows(ps)[i] == x;
    p := ps[i];
    assert p in ps;
  }

  /** A kept pair has a new side: with none, the indicator is NULL and the
      rule fails. */
  lemma {:induction false} KeptPairHasNewSide(p: Pair)
    requires KeptPair(p)
    ensures p.right.Some? && CombinedRow(p).indicator.Some?
  {
    if p.right.None? {
      NullIndicatorInvalid(Side(p.right, LineAllowed1));
      assert false;
    }
  }

  /** Every reported row passes the rule, has payments that differ, and
      comes from a pair with a new side: the indicator is read from the new
      snapshot, so a claim present in the source only is never reported. */
  lemma {:induction false} ReportedRowsHaveNewSide(src: seq<Row>, target: seq<Row>)
    ensures forall x :: x in BusinessRuleView(src, target) ==>
      ValidReference(x.indicator, x.allowed) && x.srcPayment != x.newPayment
      && x.indicator.Some? && x.status != Some(SrcOnly)
  {
    forall x | x in BusinessRuleView(src, target)
      ensures ValidReference(x.indicator, x.allowed) && x.srcPayment != x.newPayment
        && x.indicator.Some? && x.status != Some(SrcOnly)
    {
      var p := ReportedOrigin(src, target, x);
      KeptPairHasNewSide(p);
      StatusPartition(src, target);
      ValidIff(x.indicator, x.allowed);
    }
  }

  /** A reported row with finite payments has the non-zero variance
      source minus new. */
  lemma {:induction false} ReportedVarianceNonZero(src: seq<Row>, target: seq<Row>)
    ensures forall x :: x in BusinessRuleView(src, target) && x.srcPayment.Fin? && x.newPayment.Fin? ==>
      x.variance == Fin(x.srcPayment.r - x.newPayment.r) && x.variance.r != 0.0
  {
    forall x | x in BusinessRuleView(src, target) && x.srcPayment.Fin? && x.newPayment.Fin?
      ensures x.variance == Fin(x.srcPayment.r - x.newPayment.r) && x.variance.r != 0.0
    {
      var p := ReportedOrigin(src, target, x);
    }
  }

  /** A claim present on both sides is reported exactly when its new line 1
      passes the business rule and the two payments, NULL read as 0,
      differ. */
  lemma {:induction false} MatchedClaimReported(src: seq<Row>, target: seq<Row>, a: Row, b: Row)
    requires a in src && b in target && Get(a, ClaimId).Some? && Get(a, ClaimId) == Get(b, ClaimId)
    ensures CombinedRow(Pair(Some(a), Some(b))) in BusinessRuleView(src, target) <==>
      ValidReference(Get(b, LineIndicator1), Get(b, LineAllowed1))
      && CoalesceNum(Get(a, LinePayment1)) != CoalesceNum(Get(b, LinePayment1))
  {
    var p := Pair(Some(a), Some(b));
    ValidIff(Get(b, LineIndicator1), Get(b, LineAllowed1));
    if CombinedRow(p) in BusinessRuleView(src, target) {
      var q := ReportedOrigin(src, target, CombinedRow(p));
    }
    if KeptPair(p) {
      KeptMatchedReported(src, target, a, b);
    }
  }

  lemma {:induction false} KeptMatchedReported(src: seq<Row>, target: seq<Row>, a: Row, b: Row)
    requires a in src && b in target && Get(a, ClaimId).Some? && Get(a, ClaimId) == Get(b, ClaimId)
    requires KeptPair(Pair(Some(a), Some(b)))
    ensures CombinedRow(Pair(Some(a), Some(b))) in BusinessRuleView(src, target)
  {
    var p := Pair(Some(a), Some(b));
    ClaimMatches(a, b);
    MatchedPairs(src, target, CarrierKey);
    var ps := Where(ClaimJoin(src, target), KeptPair);
    assert p in ps;
    var i :| 0 <= i < |ps| && ps[i] == p;
    assert RuleRows(ps)[i] == CombinedRow(p);
  }

  /** `COALESCE(s.DESYNPUF_ID, n.DESYNPUF_ID) AS BENE_ID`. */
  function BeneOf(p: Pair): (b: Cell)
    ensures b.Some? <==> Side(p.left, BeneId).Some? || Side(p.right, BeneId).Some?
  {
    FirstNonNull(Side(p.left, BeneId), Side(p.right, BeneId))
  }

  /** The state names `LEFT JOIN lookup_state ON SP_STATE_CODE = code`
      attaches to one summary side: one per matching lookup row, or a NULL
      name when no code matches. */
  function LookupNames(lookup: seq<Row>, o: Option<Row>): (ns: seq<Cell>)
    ensures |ns| == |LeftSide(lookup, [LookupCode], [Side(o, StateCode)])|
    ensures forall i :: 0 <= i < |ns| ==> ns[i] == Side(LeftSide(lookup, [LookupCode], [Side(o, StateCode)])[i], LookupName)
  {
    var side := LeftSide(lookup, [LookupCode], [Side(o, StateCode)]);
    seq(|side|, i requires 0 <= i < |side| => Side(side[i], LookupName))
  }

  /** The state names over several summary sides, side by side. */
  function NamesOver(lookup: seq<Row>, sides: seq<Option<Row>>): (ns: seq<Cell>)
    ensures |ns| >= |sides|
  {
    if |sides| == 0 then []
    else NamesOver(lookup, sides[..|sides| - 1]) + LookupNames(lookup, sides[|sides| - 1])
  }

  /** `LEFT JOIN <summary> ON c.BENE_ID = DESYNPUF_ID` followed by the state
      lookup on that summary's code: one name per joined row. A
      beneficiary with k summary years gives at least k rows, and at least
      one row whatever the summary holds. */
  function StateNames(summary: seq<Row>, lookup: seq<Row>, bene: Cell): (ns: seq<Cell>)
    ensures |ns| >= 1
    ensures |ns| >= |MatchingRows(summary, [BeneId], [bene])|
  {
    NamesOver(lookup, LeftSide(summary, [BeneId], [bene]))
  }

  /** One row of `vw_claim_line_nch_pmt_amt_1_differences`: the combined
      claim row and its `STATE_NAME`. */
  datatype ReportRow = ReportRow(rule: RuleRow, stateName: Cell)

  /** `COALESCE(ls_sb.name, ls_nb.name, 'Unknown/Orphan')`. */
  function StateName(a: Cell, b: Cell): (c: Cell)
    ensures c.Some?
    ensures a.Some? ==> c == a
    ensures a.None? && b.Some? ==> c == b
  {
    FirstNonNull(a, FirstNonNull(b, Some(Str("Unknown/Orphan"))))
  }

  /** The rows one source name contributes: one per new-side name. */
  function NameRow(x: RuleRow, a: Cell, bs: seq<Cell>): (rs: seq<ReportRow>)
    ensures |rs| == |bs|
    ensures forall i :: 0 <= i < |bs| ==> rs[i] == ReportRow(x, StateName(a, bs[i]))
  {
    seq(|bs|, i requires 0 <= i < |bs| => ReportRow(x, StateName(a, bs[i])))
  }

  /** Every pairing of a source-side name with a new-side name. */
  function NameRows(x: RuleRow, as_: seq<Cell>, bs: seq<Cell>): (rs: seq<ReportRow>)
    ensures |rs| == |as_| * |bs|
    ensures forall r :: r in rs ==> r.rule == x
  {
    if |as_| == 0 then []
    else
      var rest := NameRows(x, as_[..|as_| - 1], bs);
      var more := NameRow(x, as_[|as_| - 1], bs);
      NextBlockSize(|as_| - 1, |bs|, |rest|, |more|);
      rest + more
  }

  lemma {:induction false} NextBlockSize(n: nat, m: nat, a: nat, b: nat)
    requires a == n * m && b == m
    ensures a + b == (n + 1) * m
  {
  }

  /** The rows one kept pair reaches after the four lookup joins: its
      combined row once per pairing of its source-summary rows with its
      new-summary rows (each widened by its state lookup). */
  function PairRows(p: Pair, sb: seq<Row>, nb: seq<Row>, lookup: seq<Row>): (rs: seq<ReportRow>)
    ensures |rs| == |StateNames(sb, lookup, BeneOf(p))| * |StateNames(nb, lookup, BeneOf(p))|
    ensures forall r :: r in rs ==> r.rule == CombinedRow(p)
  {
    NameRows(CombinedRow(p), StateNames(sb, lookup, BeneOf(p)), StateNames(nb, lookup, BeneOf(p)))
  }

  /** A kept pair is repeated once per pairing of its beneficiary's summary
      years: k source years and l new years give at least k * l rows, and
      there is always at least one. */
  lemma {:induction false} PairRowsRepeat(p: Pair, sb: seq<Row>, nb: seq<Row>, lookup: seq<Row>)
    ensures |PairRows(p, sb, nb, lookup)| >= 1
    ensures |PairRows(p, sb, nb, lookup)| >=
      |MatchingRows(sb, [BeneId], [BeneOf(p)])| * |MatchingRows(nb, [BeneId], [BeneOf(p)])|
  {
    var a := |StateNames(sb, lookup, BeneOf(p))|;
    var b := |StateNames(nb, lookup, BeneOf(p))|;
    var k := |MatchingRows(sb, [BeneId], [BeneOf(p)])|;
    var l := |MatchingRows(nb, [BeneId], [BeneOf(p)])|;
    MulMonotone(k, a, l);
    MulMonotone(l, b, a);
    MulMonotone(1, a, 1);
    MulMonotone(1, b, a);
  }

  /** The rows of several kept pairs, pair after pair. */
  function ReportedRows(ps: seq<Pair>, sb: seq<Row>, nb: seq<Row>, lookup: seq<Row>): (rs: seq<ReportRow>)
    ensures |rs| >= |ps|
  {
    if |ps| == 0 then []
    else ReportedRows(ps[..|ps| - 1], sb, nb, lookup) + PairRows(ps[|ps| - 1], sb, nb, lookup)
  }

  /** `vw_claim_line_nch_pmt_amt_1_differences` with its joins to the two
      beneficiary summaries and to `lookup_state`. */
  function BusinessRuleReport(src: seq<Row>, target: seq<Row>, sb: seq<Row>, nb: seq<Row>, lookup: seq<Row>): seq<ReportRow>
  {
    ReportedRows(Where(ClaimJoin(src, target), KeptPair), sb, nb, lookup)
  }

  /** Each pair's rows stand together in the output. */
  lemma {:induction false} PairBlock(ps: seq<Pair>, sb: seq<Row>, nb: seq<Row>, lookup: seq<Row>, p: Pair)
    returns (pre: seq<ReportRow>, post: seq<ReportRow>)
    requires p in ps
    ensures ReportedRows(ps, sb, nb, lookup) == pre + PairRows(p, sb, nb, lookup) + post
  {
    var init := ps[..|ps| - 1];
    var last := ps[|ps| - 1];
    if p == last {
      pre, post := ReportedRows(init, sb, nb, lookup), [];
    } else {
      assert p in init by {
        SnocSplit(ps);
      }
      var pre0, post0 := PairBlock(init, sb, nb, lookup, p);
      ConcatAssociates(pre0 + PairRows(p, sb, nb, lookup), post0, PairRows(last, sb, nb, lookup));
      pre, post := pre0, post0 + PairRows(last, sb, nb, lookup);
    }
  }

  /** Every output row carries the combined row of one of the pairs. */
  lemma {:induction false} ReportedRowsSound(ps: seq<Pair>, sb: seq<Row>, nb: seq<Row>, lookup: seq<Row>, r: ReportRow)
    requires r in ReportedRows(ps, sb, nb, lookup)
    ensures exists p :: p in ps && r.rule == CombinedRow(p)
  {
    var init := ps[..|ps| - 1];
    var last := ps[|ps| - 1];
    if r in ReportedRows(init, sb, nb, lookup) {
      ReportedRowsSound(init, sb, nb, lookup, r);
      var p :| p in init && r.rule == CombinedRow(p);
      assert p in ps;
    } else {
      assert r in PairRows(last, sb, nb, lookup);
      assert last in ps;
    }
  }

  /** Every pair reaches the output with its combined row. */
  lemma {:induction false} ReportedRowsComplete(ps: seq<Pair>, sb: seq<Row>, nb: seq<Row>, lookup: seq<Row>, p: Pair)
    requires p in ps
    ensures exists r :: r in ReportedRows(ps, sb, nb, lookup) && r.rule == CombinedRow(p)
  {
    var pre, post := PairBlock(ps, sb, nb, lookup, p);
    var block := PairRows(p, sb, nb, lookup);
    PairRowsRepeat(p, sb, nb, lookup);
    assert (pre + block + post)[|pre|] == block[0];
    assert block[0] in block;
  }

  /** The combined rows of some pairs are exactly the rows of `RuleRows`. */
  lemma {:induction false} RuleRowsOrigin(ps: seq<Pair>, x: RuleRow)
    ensures x in RuleRows(ps) <==> exists p :: p in ps && CombinedRow(p) == x
  {
    if x in RuleRows(ps) {
      var i :| 0 <= i < |ps| && RuleRows(ps)[i] == x;
      assert ps[i] in ps;
    }
    if exists p :: p in ps && CombinedRow(p) == x {
      var p :| p in ps && CombinedRow(p) == x;
      var i :| 0 <= i < |ps| && ps[i] == p;
      assert RuleRows(ps)[i] == x;
    }
  }

  /** The lookup joins change how often a claim is listed, never which
      claims are: a combined row is reported exactly when it is a row of
      the view before the joins. */
  lemma {:induction false} BusinessRuleReportRows(src: seq<Row>, target: seq<Row>, sb: seq<Row>, nb: seq<Row>, lookup: seq<Row>, x: RuleRow)
    ensures (exists r :: r in BusinessRuleReport(src, target, sb, nb, lookup) && r.rule == x) <==>
      x in BusinessRuleView(src, target)
  {
    var ps := Where(ClaimJoin(src, target), KeptPair);
    RuleRowsOrigin(ps, x);
    if exists r :: r in ReportedRows(ps, sb, nb, lookup) && r.rule == x {
      var r :| r in ReportedRows(ps, sb, nb, lookup) && r.rule == x;
      ReportedRowsSound(ps, sb, nb, lookup, r);
    }
    if exists p :: p in ps && CombinedRow(p) == x {
      var p :| p in ps && CombinedRow(p) == x;
      ReportedRowsComplete(ps, sb, nb, lookup, p);
    }
  }

  /** The two findings of `vw_claim_mismatches`. */
  datatype Finding = MissingInNew | OnlyInNew

  datatype ClaimFinding = ClaimFinding(claim: Cell, finding: Finding)

  function Findings(rows: seq<Row>, f: Finding): (fs: seq<ClaimFinding>)
    ensures |fs| == |rows|
    ensures forall i :: 0 <= i < |rows| ==> fs[i] == ClaimFinding(Get(rows[i], ClaimId), f)
  {
    seq(|rows|, i requires 0 <= i < |rows| => ClaimFinding(Get(rows[i], ClaimId), f))
  }

  /** `vw_claim_mismatches`: the anti-join in each direction, combined by
      `UNION`, which removes duplicates. */
  function ClaimMismatches(src: seq<Row>, target: seq<Row>): seq<ClaimFinding>
  {
    Distinct(Findings(Unmatched(src, target, CarrierKey), MissingInNew)
      + Findings(Unmatched(target, src, CarrierKey), OnlyInNew))
  }

  /** A reported id comes from a row of `rows` and appears in no row of
      `other`, unless it is NULL. */
  lemma {:induction false} FindingSound(rows: seq<Row>, other: seq<Row>, f: Finding, c: Cell)
    requires ClaimFinding(c, f) in Findings(Unmatched(rows, other, CarrierKey), f)
    ensures exists r :: r in rows && Get(r, ClaimId) == c
    ensures c.None? || forall o :: o in other ==> Get(o, ClaimId) != c
  {
    var u := Unmatched(rows, other, CarrierKey);
    var fs := Findings(u, f);
    var i :| 0 <= i < |fs| && fs[i] == ClaimFinding(c, f);
    var r := u[i];
    assert r in u;
    forall o | o in other ensures c.None? || Get(o, ClaimId) != c {
      ClaimMatches(r, o);
    }
  }

  /** Every row whose id is NULL or absent from `other` is reported. */
  lemma {:induction false} FindingComplete(rows: seq<Row>, other: seq<Row>, f: Finding, r: Row)
    requires r in rows
    requires Get(r, ClaimId).None? || forall o :: o in other ==> Get(o, ClaimId) != Get(r, ClaimId)
    ensures ClaimFinding(Get(r, ClaimId), f) in Findings(Unmatched(rows, other, CarrierKey), f)
  {
    var u := Unmatched(rows, other, CarrierKey);
    forall o | o in other ensures !Matches(KeyOf(r, CarrierKey), KeyOf(o, CarrierKey)) {
      ClaimMatches(r, o);
    }
    var i :| 0 <= i < |u| && u[i] == r;
    assert Findings(u, f)[i] == ClaimFinding(Get(r, ClaimId), f);
  }

  /** An anti-join on `CLM_ID` reports exactly the ids carried by some row
      of `rows` and by no row of `other`, and every NULL id `rows` carries. */
  lemma {:induction false} FindingsMeaning(rows: seq<Row>, other: seq<Row>, f: Finding)
    ensures forall c :: ClaimFinding(c, f) in Findings(Unmatched(rows, other, CarrierKey), f) <==>
      (exists r :: r in rows && Get(r, ClaimId) == c) && (c.None? || forall o :: o in other ==> Get(o, ClaimId) != c)
  {
    forall c ensures ClaimFinding(c, f) in Findings(Unmatched(rows, other, CarrierKey), f) <==>
      (exists r :: r in rows && Get(r, ClaimId) == c) && (c.None? || forall o :: o in other ==> Get(o, ClaimId) != c)
    {
      if ClaimFinding(c, f) in Findings(Unmatched(rows, other, CarrierKey), f) {
        FindingSound(rows, other, f, c);
      }
      if (exists r :: r in rows && Get(r, ClaimId) == c) && (c.None? || forall o :: o in other ==> Get(o, ClaimId) != c) {
        var r :| r in rows && Get(r, ClaimId) == c;
        FindingComplete(rows, other, f, r);
      }
    }
  }

  /** A claim is reported missing exactly when a source row carries its id
      and no new row does, and reported extra in the mirror case; a NULL id
      is reported on whichever side carries it. */
  lemma {:induction false} ClaimMismatchesMeaning(src: seq<Row>, target: seq<Row>)
    ensures forall c :: ClaimFinding(c, MissingInNew) in ClaimMismatches(src, target) <==>
      (exists r :: r in src && Get(r, ClaimId) == c) && (c.None? || forall o :: o in target ==> Get(o, ClaimId) != c)
    ensures forall c :: ClaimFinding(c, OnlyInNew) in ClaimMismatches(src, target) <==>
      (exists r :: r in target && Get(r, ClaimId) == c) && (c.None? || forall o :: o in src ==> Get(o, ClaimId) != c)
  {
    var missing := Findings(Unmatched(src, target, CarrierKey), MissingInNew);
    var extra := Findings(Unmatched(target, src, CarrierKey), OnlyInNew);
    FindingsMeaning(src, target, MissingInNew);
    FindingsMeaning(target, src, OnlyInNew);
    UnionSides(missing, extra);
  }

  /** In the `UNION` of the two directions, each finding comes from its own
      direction. */
  lemma {:induction false} UnionSides(missing: seq<ClaimFinding>, extra: seq<ClaimFinding>)
    requires forall i :: 0 <= i < |missing| ==> missing[i].finding == MissingInNew
    requires forall i :: 0 <= i < |extra| ==> extra[i].finding == OnlyInNew
    ensures forall c :: ClaimFinding(c, MissingInNew) in Distinct(missing + extra) <==> ClaimFinding(c, MissingInNew) in missing
    ensures forall c :: ClaimFinding(c, OnlyInNew) in Distinct(missing + extra) <==> ClaimFinding(c, OnlyInNew) in extra
  {
    assert forall x :: x in missing + extra <==> x in missing || x in extra;
    forall x | x in extra ensures x.finding == OnlyInNew {
      var i :| 0 <= i < |extra| && extra[i] == x;
    }
    forall x | x in missing ensures x.finding == MissingInNew {
      var i :| 0 <= i < |missing| && missing[i] == x;
    }
  }

  /** A row restricted to some columns, as `SELECT DISTINCT c1, c2, ...`
      produces it. */
  function Project(r: Row, cols: seq<string>): (p: Row)
    ensures KeyOf(p, cols) == KeyOf(r, cols)
  {
    var p := map c | c in cols :: Get(r, c);
    assert forall i :: 0 <= i < |cols| ==> KeyOf(p, cols)[i] == KeyOf(r, cols)[i];
    p
  }

  /** The `KEYS` expression of the orphan table: the distinct source key
      tuples. */
  function SourceKeyRows(src: seq<Row>, cols: seq<string>): (ks: seq<Row>)
    ensures forall s :: s in src ==> Project(s, cols) in ks
    ensures forall k :: k in ks ==> exists s :: s in src && k == Project(s, cols)
  {
    var ps := seq(|src|, i requires 0 <= i < |src| => Project(src[i], cols));
    assert forall s :: s in src ==> Project(s, cols) in ps by {
      forall s | s in src ensures Project(s, cols) in ps {
        var i :| 0 <= i < |src| && src[i] == s;
        assert ps[i] == Project(s, cols);
      }
    }
    assert forall k :: k in ps ==> exists s :: s in src && k == Project(s, cols) by {
      forall k | k in ps ensures exists s :: s in src && k == Project(s, cols) {
        var i :| 0 <= i < |ps| && ps[i] == k;
        assert src[i] in src;
      }
    }
    Distinct(ps)
  }

  /** The key columns of one side of the join, NULL where the side is. */
  function SideKey(o: Option<Row>, cols: seq<string>): (k: Key)
    ensures |k| == |cols|
    ensures o.Some? ==> k == KeyOf(o.value, cols)
    ensures o.None? ==> forall i :: 0 <= i < |cols| ==> k[i].None?
  {
    if o.Some? then KeyOf(o.value, cols) else seq(|cols|, i => None)
  }

  /** `WHERE k.DESYNPUF_ID IS NULL OR k.CLM_ID IS NULL OR ...`. */
  predicate OrphanCondition(p: Pair)
  {
    !NonNullKey(SideKey(p.right, CarrierAuditKey))
  }

  /** `carrier_claims_orphans`: `SELECT n.* FROM new n FULL OUTER JOIN KEYS k
      ON <four key columns> WHERE <some k column IS NULL>`. A `None` entry is
      a row of NULLs. */
  function CarrierOrphans(src: seq<Row>, target: seq<Row>): seq<Option<Row>>
  {
    Lefts(Where(FullOuterJoin(target, SourceKeyRows(src, CarrierAuditKey), CarrierAuditKey), OrphanCondition))
  }

  lemma {:induction false} NoMatchOnNullKey(k: Key, other: Key)
    requires !NonNullKey(k)
    ensures !Matches(k, other) && !Matches(other, k)
  {
    MatchesMeaning(k, other);
    MatchesMeaning(other, k);
  }

  /** An orphan is a new row whose key columns match no source row. */
  lemma {:induction false} OrphanRowsSound(src: seq<Row>, target: seq<Row>, n: Row)
    requires Some(n) in CarrierOrphans(src, target)
    ensures n in target && forall s :: s in src ==> !Matches(KeyOf(n, CarrierAuditKey), KeyOf(s, CarrierAuditKey))
  {
    var cols := CarrierAuditKey;
    var ks := SourceKeyRows(src, cols);
    var w := Where(FullOuterJoin(target, ks, cols), OrphanCondition);
    LeftsMembers(w);
    var p :| p in w && p.left == Some(n);
    if p.right.Some? {
      MatchedPairs(target, ks, cols);
      assert Pair(Some(n), Some(p.right.value)) == p;
      MatchesMeaning(KeyOf(n, cols), KeyOf(p.right.value, cols));
      assert false;
    }
    LeftOnlyPairs(target, ks, cols);
    assert Pair(Some(n), None) == p;
    forall s | s in src ensures !Matches(KeyOf(n, cols), KeyOf(s, cols)) {
      assert Project(s, cols) in ks;
    }
  }

  /** A new row whose key columns match no source row is an orphan. */
  lemma {:induction false} OrphanRowsComplete(src: seq<Row>, target: seq<Row>, n: Row)
    requires n in target && forall s :: s in src ==> !Matches(KeyOf(n, CarrierAuditKey), KeyOf(s, CarrierAuditKey))
    ensures Some(n) in CarrierOrphans(src, target)
  {
    var cols := CarrierAuditKey;
    var ks := SourceKeyRows(src, cols);
    var w := Where(FullOuterJoin(target, ks, cols), OrphanCondition);
    LeftsMembers(w);
    forall k | k in ks ensures !Matches(KeyOf(n, cols), KeyOf(k, cols)) {
      var s :| s in src && k == Project(s, cols);
    }
    LeftOnlyPairs(target, ks, cols);
    assert SideKey(None, cols)[0].None?;
    assert Pair(Some(n), None) in w;
  }

  /** A new row is an orphan exactly when its four key columns match no
      source row. */
  lemma {:induction false} OrphanRows(src: seq<Row>, target: seq<Row>, n: Row)
    ensures Some(n) in CarrierOrphans(src, target) <==>
      n in target && forall s :: s in src ==> !Matches(KeyOf(n, CarrierAuditKey), KeyOf(s, CarrierAuditKey))
  {
    if Some(n) in CarrierOrphans(src, target) {
      OrphanRowsSound(src, target, n);
    }
    if n in target && forall s :: s in src ==> !Matches(KeyOf(n, CarrierAuditKey), KeyOf(s, CarrierAuditKey)) {
      OrphanRowsComplete(src, target, n);
    }
  }

  /** The orphan table holds a row of NULLs exactly when some source row
      has a NULL among its four key columns: such a key matches no new row,
      so the full outer join emits it with an empty new side. */
  lemma {:induction false} OrphanNullRow(src: seq<Row>, target: seq<Row>)
    ensures None in CarrierOrphans(src, target) <==>
      exists s :: s in src && !NonNullKey(KeyOf(s, CarrierAuditKey))
  {
    if None in CarrierOrphans(src, target) {
      NullRowFromNullKey(src, target);
    }
    if exists s :: s in src && !NonNullKey(KeyOf(s, CarrierAuditKey)) {
      var s :| s in src && !NonNullKey(KeyOf(s, CarrierAuditKey));
      NullKeyGivesNullRow(src, target, s);
    }
  }

  lemma {:induction false} NullRowFromNullKey(src: seq<Row>, target: seq<Row>)
    requires None in CarrierOrphans(src, target)
    ensures exists s :: s in src && !NonNullKey(KeyOf(s, CarrierAuditKey))
  {
    var cols := CarrierAuditKey;
    var ks := SourceKeyRows(src, cols);
    var w := Where(FullOuterJoin(target, ks, cols), OrphanCondition);
    LeftsMembers(w);
    var p :| p in w && p.left == None;
    FullOuterJoinMeaning(target, ks, cols);
    var k := p.right.value;
    assert Pair(None, Some(k)) == p;
    var s :| s in src && k == Project(s, cols);
  }

  lemma {:induction false} NullKeyGivesNullRow(src: seq<Row>, target: seq<Row>, s: Row)
    requires s in src && !NonNullKey(KeyOf(s, CarrierAuditKey))
    ensures None in CarrierOrphans(src, target)
  {
    var cols := CarrierAuditKey;
    var ks := SourceKeyRows(src, cols);
    var w := Where(FullOuterJoin(target, ks, cols), OrphanCondition);
    var k := Project(s, cols);
    NullKeyPair(target, ks, k);
    LeftsMembers(w);
  }

  /** A key row with a NULL key column stands beside NULLs among the
      orphans. */
  lemma {:induction false} NullKeyPair(target: seq<Row>, ks: seq<Row>, k: Row)
    requires k in ks && !NonNullKey(KeyOf(k, CarrierAuditKey))
    ensures Pair(None, Some(k)) in Where(FullOuterJoin(target, ks, CarrierAuditKey), OrphanCondition)
  {
    var cols := CarrierAuditKey;
    forall o | o in target ensures !Matches(KeyOf(k, cols), KeyOf(o, cols)) {
      NoMatchOnNullKey(KeyOf(k, cols), KeyOf(o, cols));
    }
    RightOnlyPairs(target, ks, cols);
  }

  /** The orphan table holds the new rows whose four key columns match no
      source row, and a row of NULLs exactly when some source row has a
      NULL among its four key columns. */
  lemma {:induction false} CarrierOrphansMeaning(src: seq<Row>, target: seq<Row>)
    ensures forall n :: Some(n) in CarrierOrphans(src, target) <==>
      n in target && forall s :: s in src ==> !Matches(KeyOf(n, CarrierAuditKey), KeyOf(s, CarrierAuditKey))
    ensures None in CarrierOrphans(src, target) <==>
      exists s :: s in src && !NonNullKey(KeyOf(s, CarrierAuditKey))
  {
    forall n ensures Some(n) in CarrierOrphans(src, target) <==>
      n in target && forall s :: s in src ==> !Matches(KeyOf(n, CarrierAuditKey), KeyOf(s, CarrierAuditKey))
    {
      OrphanRows(src, target, n);
    }
    OrphanNullRow(src, target);
  }
}
