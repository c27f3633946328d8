/** The financial variance tables `audit_beneficiary_financials` and
    `audit_carrier_financials`: each snapshot's amounts are read with NaN and
    NULL as 0, the key union is left-joined to both snapshots on a WIDE key
    (the beneficiary key plus birth date, death date, sex and race; the
    four claim key columns), and every amount gets `src_`, `new_`, `delta_`
    (new minus source) and `abs_delta_` columns. */
module Financial {
  import opened Sql
  import opened Table
  import opened Schema
  import opened Join
  import opened Audit
  import opened Group

  /** The join key of `audit_beneficiary_financials`. */
  const BeneficiaryWideKey: seq<string> :=
    ["DESYNPUF_ID", "YEAR", "BENE_BIRTH_DT", "BENE_DEATH_DT", "BENE_SEX_IDENT_CD", "BENE_RACE_CD"]

  /** The nine yearly amounts of the beneficiary summary. */
  const BeneficiaryMoney: seq<string> := [
    "MEDREIMB_IP", "BENRES_IP", "PPPYMT_IP", "MEDREIMB_OP", "BENRES_OP", "PPPYMT_OP",
    "MEDREIMB_CAR", "BENRES_CAR", "PPPYMT_CAR"]

  /** The five per-line amount families of a carrier claim, thirteen slots
      each. */
  const CarrierMoneyFamilies: seq<string> := [
    "LINE_NCH_PMT_AMT", "LINE_BENE_PTB_DDCTBL_AMT", "LINE_BENE_PRMRY_PYR_PD_AMT",
    "LINE_COINSRNC_AMT", "LINE_ALOWD_CHRG_AMT"]

  function MoneySlots(fams: seq<string>): (names: seq<string>)
    ensures |names| == 13 * |fams|
  {
    if |fams| == 0 then [] else Names(Slots(fams[0], FloatKind, 13)) + MoneySlots(fams[1..])
  }

  /** `CASE WHEN isnan(x) THEN 0 ELSE coalesce(x, 0) END`: `isnan(NULL)` is
      NULL, which `CASE` treats as false, so NULL reaches the `coalesce`. */
  function Coerce(c: Cell): (r: real)
    ensures NumberOf(c).None? || NumberOf(c).value.NaN? ==> r == 0.0
    ensures NumberOf(c).Some? && NumberOf(c).value.Fin? ==> r == NumberOf(c).value.r
  {
    match NumberOf(c)
    case Some(Fin(x)) => x
    case _ => 0.0
  }

  /** NULL, NaN and 0 are the same amount to the financial tables, though
      the defect matrix flags NaN against 0 (`NaN <> 0` holds). */
  lemma {:induction false} NanNullZeroIndistinguishable()
    ensures Coerce(None) == Coerce(Some(Num(NaN))) == Coerce(Some(Num(Fin(0.0)))) == 0.0
    ensures FieldFlag(Column("MEDREIMB_IP", FloatKind), Some(Num(NaN)), Some(Num(Fin(0.0)))) == 1
  {
  }

  /** The four columns one amount produces. */
  datatype MoneyCell = MoneyCell(src: Option<real>, target: Option<real>, delta: Option<real>, absDelta: Option<real>)

  function SideAmount(r: Option<Row>, f: string): (a: Option<real>)
    ensures a.Some? <==> r.Some?
  {
    if r.Some? then Some(Coerce(Get(r.value, f))) else None
  }

  /** `s.f`, `n.f`, `n.f - s.f` and `abs(n.f - s.f)`; the arithmetic is NULL
      whenever one side of the join is missing. */
  function MoneyOf(s: Option<Row>, n: Option<Row>, f: string): (m: MoneyCell)
    ensures m.src.Some? <==> s.Some?
    ensures m.target.Some? <==> n.Some?
    ensures m.delta.Some? <==> s.Some? && n.Some?
    ensures m.absDelta.Some? <==> m.delta.Some?
    ensures m.delta.Some? ==> m.src.value + m.delta.value == m.target.value
    ensures m.absDelta.Some? ==>
      m.absDelta.value >= 0.0 && (m.absDelta.value == m.delta.value || m.absDelta.value == -m.delta.value)
  {
    var a := SideAmount(s, f);
    var b := SideAmount(n, f);
    var d := if a.Some? && b.Some? then Some(b.value - a.value) else None;
    MoneyCell(a, b, d, if d.Some? then Some(Abs(d.value)) else None)
  }

  /** Swapping the snapshots negates every delta and keeps its magnitude. */
  lemma {:induction false} SwapNegatesDelta(s: Option<Row>, n: Option<Row>, f: string)
    ensures MoneyOf(n, s, f).delta.Some? <==> MoneyOf(s, n, f).delta.Some?
    ensures MoneyOf(s, n, f).delta.Some? ==> MoneyOf(n, s, f).delta.value == -MoneyOf(s, n, f).delta.value
    ensures MoneyOf(n, s, f).absDelta == MoneyOf(s, n, f).absDelta
  {
  }

  /** One output row: the key-union key and the joined rows (either may be
      all NULL). */
  datatype FinRow = FinRow(key: Key, src: Option<Row>, target: Option<Row>)

  function Money(fields: seq<string>, r: FinRow): (ms: seq<MoneyCell>)
    ensures |ms| == |fields|
    ensures forall j :: 0 <= j < |fields| ==> ms[j] == MoneyOf(r.src, r.target, fields[j])
  {
    seq(|fields|, j requires 0 <= j < |fields| => MoneyOf(r.src, r.target, fields[j]))
  }

  /** Every source-side choice paired with every target-side choice. */
  function Pairs(ss: seq<Option<Row>>, ns: seq<Option<Row>>, k: Key): (rows: seq<FinRow>)
    ensures forall r :: r in rows <==> r.key == k && r.src in ss && r.target in ns
  {
    if |ss| == 0 then []
    else
      var head := seq(|ns|, j requires 0 <= j < |ns| => FinRow(k, ss[0], ns[j]));
      assert forall r :: r in head <==> r.key == k && r.src == ss[0] && r.target in ns by {
        forall r: FinRow | r.key == k && r.src == ss[0] && r.target in ns ensures r in head {
          var j :| 0 <= j < |ns| && ns[j] == r.target;
          assert head[j] == r;
        }
      }
      assert forall x :: x in ss <==> x == ss[0] || x in ss[1..] by {
        assert ss == [ss[0]] + ss[1..];
      }
      head + Pairs(ss[1..], ns, k)
  }

  function FinancialFor(keys: seq<Key>, src: seq<Row>, target: seq<Row>, cols: seq<string>): (rows: seq<FinRow>)
    ensures forall r :: r in rows <==>
      r.key in keys && r.src in LeftSide(src, cols, r.key) && r.target in LeftSide(target, cols, r.key)
  {
    if |keys| == 0 then []
    else
      var init := keys[..|keys| - 1];
      var k := keys[|keys| - 1];
      assert forall x :: x in keys <==> x in init || x == k by {
        assert keys == init + [k];
      }
      FinancialFor(init, src, target, cols) + Pairs(LeftSide(src, cols, k), LeftSide(target, cols, k), k)
  }

  /** `KEYS k LEFT JOIN src_ s ON <cols> LEFT JOIN new_ n ON <cols>`. */
  function FinancialRows(src: seq<Row>, target: seq<Row>, cols: seq<string>): (rows: seq<FinRow>)
    ensures forall r :: r in rows <==>
      r.key in KeyUnion(src, target, cols) && r.src in LeftSide(src, cols, r.key) && r.target in LeftSide(target, cols, r.key)
  {
    FinancialFor(KeyUnion(src, target, cols), src, target, cols)
  }

  /** A source row meets a target row exactly when they agree on every
      join column and none of those is NULL. */
  lemma {:induction false} MatchedPairHasRow(src: seq<Row>, target: seq<Row>, cols: seq<string>, s: Row, n: Row)
    requires s in src && n in target
    ensures FinRow(KeyOf(s, cols), Some(s), Some(n)) in FinancialRows(src, target, cols)
      <==> Matches(KeyOf(s, cols), KeyOf(n, cols))
  {
    var k := KeyOf(s, cols);
    var r := FinRow(k, Some(s), Some(n));
    if r in FinancialRows(src, target, cols) {
      LeftSideMeaning(target, cols, k);
    }
    if Matches(k, KeyOf(n, cols)) {
      PairedRow(src, target, cols, s, n);
    }
  }

  lemma {:induction false} PairedRow(src: seq<Row>, target: seq<Row>, cols: seq<string>, s: Row, n: Row)
    requires s in src && n in target && Matches(KeyOf(s, cols), KeyOf(n, cols))
    ensures FinRow(KeyOf(s, cols), Some(s), Some(n)) in FinancialRows(src, target, cols)
  {
    var k := KeyOf(s, cols);
    var i :| 0 <= i < |src| && src[i] == s;
    assert Keys(src, cols)[i] == k;
    assert k in KeyUnion(src, target, cols);
    MatchesMeaning(k, KeyOf(n, cols));
    MatchesMeaning(k, k);
    LeftSideMeaning(src, cols, k);
    LeftSideMeaning(target, cols, k);
  }

  /** A source row that meets no target row on the join columns appears only
      beside NULLs, so none of its amounts is compared. */
  lemma {:induction false} UnmatchedSourceHasNoDelta(src: seq<Row>, target: seq<Row>, cols: seq<string>, fields: seq<string>, s: Row)
    requires forall n :: n in target ==> !Matches(KeyOf(s, cols), KeyOf(n, cols))
    ensures forall r :: r in FinancialRows(src, target, cols) && r.src == Some(s) ==>
      r.target.None? && forall j :: 0 <= j < |fields| ==> Money(fields, r)[j].absDelta.None?
  {
    forall r | r in FinancialRows(src, target, cols) && r.src == Some(s)
      ensures r.target.None?
    {
      LeftSideMeaning(src, cols, r.key);
      LeftSideMeaning(target, cols, r.key);
      if r.target.Some? {
        var n := r.target.value;
        MatchesMeaning(r.key, KeyOf(s, cols));
        MatchesMeaning(r.key, KeyOf(n, cols));
        MatchesMeaning(KeyOf(s, cols), KeyOf(n, cols));
        assert false;
      }
    }
  }

  /** The mirror image for a target row that meets no source row. */
  lemma {:induction false} UnmatchedTargetHasNoDelta(src: seq<Row>, target: seq<Row>, cols: seq<string>, fields: seq<string>, n: Row)
    requires forall s :: s in src ==> !Matches(KeyOf(n, cols), KeyOf(s, cols))
    ensures forall r :: r in FinancialRows(src, target, cols) && r.target == Some(n) ==>
      r.src.None? && forall j :: 0 <= j < |fields| ==> Money(fields, r)[j].absDelta.None?
  {
    forall r | r in FinancialRows(src, target, cols) && r.target == Some(n)
      ensures r.src.None?
    {
      LeftSideMeaning(src, cols, r.key);
      LeftSideMeaning(target, cols, r.key);
      if r.src.Some? {
        var s := r.src.value;
        MatchesMeaning(r.key, KeyOf(s, cols));
        MatchesMeaning(r.key, KeyOf(n, cols));
        MatchesMeaning(KeyOf(n, cols), KeyOf(s, cols));
        assert false;
      }
    }
  }

  /** A key with a NULL component (a NULL death date, say) never satisfies
      the `=` join: its row is NULL on both sides. */
  lemma {:induction false} NullKeyRowIsEmpty(src: seq<Row>, target: seq<Row>, cols: seq<string>, r: FinRow)
    requires r in FinancialRows(src, target, cols) && !NonNullKey(r.key)
    ensures r.src.None? && r.target.None?
  {
    LeftSideMeaning(src, cols, r.key);
    LeftSideMeaning(target, cols, r.key);
    forall x | true ensures !Matches(r.key, x) {
      MatchesMeaning(r.key, x);
    }
  }

  /** `abs_delta_<field>` down the table. */
  function FieldColumn(rows: seq<FinRow>, fields: seq<string>, j: nat): (c: seq<Option<real>>)
    requires j < |fields|
    ensures |c| == |rows|
    ensures forall i :: 0 <= i < |rows| ==> c[i] == MoneyOf(rows[i].src, rows[i].target, fields[j]).absDelta
  {
    seq(|rows|, i requires 0 <= i < |rows| => MoneyOf(rows[i].src, rows[i].target, fields[j]).absDelta)
  }

  /** `sum(abs_delta_<field>)`. */
  function FieldTotal(rows: seq<FinRow>, fields: seq<string>, j: nat): (t: Option<real>)
    requires j < |fields|
    ensures t.None? <==> forall i :: 0 <= i < |rows| ==> rows[i].src.None? || rows[i].target.None?
  {
    SumSkipNullReal(FieldColumn(rows, fields, j))
  }

  /** A NULL `sum` over no present value; otherwise the sum is never
      negative when no present value is. */
  predicate PresentNonNegative(xs: seq<Option<real>>)
  {
    forall i :: 0 <= i < |xs| && xs[i].Some? ==> xs[i].value >= 0.0
  }

  lemma {:induction false} SumNonNegative(xs: seq<Option<real>>)
    requires PresentNonNegative(xs)
    ensures SumSkipNullReal(xs).Some? ==> SumSkipNullReal(xs).value >= 0.0
  {
    if |xs| > 0 {
      SumNonNegative(xs[..|xs| - 1]);
    }
  }

  /** With no negative value, a sum is positive exactly when some value
      is. */
  lemma {:induction false} PositiveSumIff(xs: seq<Option<real>>)
    requires PresentNonNegative(xs)
    ensures (SumSkipNullReal(xs).Some? && SumSkipNullReal(xs).value > 0.0)
      <==> exists i :: 0 <= i < |xs| && xs[i].Some? && xs[i].value > 0.0
  {
    if |xs| > 0 {
      var init := xs[..|xs| - 1];
      PositiveSumIff(init);
      SumNonNegative(init);
      if exists i :: 0 <= i < |init| && init[i].Some? && init[i].value > 0.0 {
        var i :| 0 <= i < |init| && init[i].Some? && init[i].value > 0.0;
        assert xs[i] == init[i];
      }
      if exists i :: 0 <= i < |xs| && xs[i].Some? && xs[i].value > 0.0 {
        var i :| 0 <= i < |xs| && xs[i].Some? && xs[i].value > 0.0;
        if i < |init| {
          assert init[i] == xs[i];
        }
      }
    }
  }

  lemma {:induction false} FieldColumnNonNegative(rows: seq<FinRow>, fields: seq<string>, j: nat)
    requires j < |fields|
    ensures PresentNonNegative(FieldColumn(rows, fields, j))
    ensures FieldTotal(rows, fields, j).Some? ==> FieldTotal(rows, fields, j).value >= 0.0
  {
    SumNonNegative(FieldColumn(rows, fields, j));
  }

  lemma {:induction false} SingletonSide(x: Row, cols: seq<string>, k: Key)
    requires Matches(k, KeyOf(x, cols))
    ensures LeftSide([x], cols, k) == [Some(x)]
  {
    var m := MatchingRows([x], cols, k);
    assert m[0] in m;
  }

  /** The rows of the table built from one source row and one target row. */
  lemma {:induction false} OneOnOneRows(s: Row, n: Row, cols: seq<string>)
    ensures forall r :: r in FinancialRows([s], [n], cols) ==>
      (r.src.Some? ==> Matches(r.key, KeyOf(s, cols))) && (r.src.None? || r.src == Some(s))
      && (r.target.Some? ==> Matches(r.key, KeyOf(n, cols))) && (r.target.None? || r.target == Some(n))
  {
    forall r | r in FinancialRows([s], [n], cols)
      ensures (r.src.Some? ==> Matches(r.key, KeyOf(s, cols))) && (r.src.None? || r.src == Some(s))
      ensures (r.target.Some? ==> Matches(r.key, KeyOf(n, cols))) && (r.target.None? || r.target == Some(n))
    {
      LeftSideMeaning([s], cols, r.key);
      LeftSideMeaning([n], cols, r.key);
    }
  }

  /** As written: a beneficiary-year whose birth date, death date, sex or
      race changed between the snapshots (or has one of them NULL) meets no
      partner on the wide key; it becomes two one-sided rows and every
      money difference on it disappears from the field totals. */
  lemma {:induction false} WideKeyHidesDifference(s: Row, n: Row, fields: seq<string>, j: nat)
    requires Matches(KeyOf(s, BeneficiaryKey), KeyOf(n, BeneficiaryKey))
    requires !Matches(KeyOf(s, BeneficiaryWideKey), KeyOf(n, BeneficiaryWideKey))
    requires j < |fields|
    ensures FieldTotal(FinancialRows([s], [n], BeneficiaryWideKey), fields, j).None?
  {
    var cols := BeneficiaryWideKey;
    var rows := FinancialRows([s], [n], cols);
    OneOnOneRows(s, n, cols);
    forall i | 0 <= i < |rows| ensures rows[i].src.None? || rows[i].target.None? {
      var r := rows[i];
      assert r in rows;
      if r.src.Some? && r.target.Some? {
        MatchesMeaning(r.key, KeyOf(s, cols));
        MatchesMeaning(r.key, KeyOf(n, cols));
        MatchesMeaning(KeyOf(s, cols), KeyOf(n, cols));
        assert false;
      }
    }
  }

  lemma {:induction false} SameKeyUnion(s: Row, n: Row, cols: seq<string>)
    requires KeyOf(s, cols) == KeyOf(n, cols)
    ensures KeyUnion([s], [n], cols) == [KeyOf(s, cols)]
  {
    var k := KeyOf(s, cols);
    assert Keys([s], cols) + Keys([n], cols) == [k, k];
    assert [k, k][..1] == [k];
    assert Distinct([k]) == [k] by {
      assert [k][..0] == [];
    }
  }

  lemma {:induction false} OneKeyRows(src: seq<Row>, target: seq<Row>, cols: seq<string>, k: Key, row: FinRow)
    requires KeyUnion(src, target, cols) == [k]
    requires Pairs(LeftSide(src, cols, k), LeftSide(target, cols, k), k) == [row]
    ensures FinancialRows(src, target, cols) == [row]
  {
    assert [k][..0] == [];
    assert FinancialFor([k], src, target, cols)
      == FinancialFor([], src, target, cols) + Pairs(LeftSide(src, cols, k), LeftSide(target, cols, k), k);
  }

  lemma {:induction false} MatchedPairRows(s: Row, n: Row, cols: seq<string>)
    requires Matches(KeyOf(s, cols), KeyOf(n, cols))
    ensures FinancialRows([s], [n], cols) == [FinRow(KeyOf(s, cols), Some(s), Some(n))]
  {
    var k := KeyOf(s, cols);
    MatchesMeaning(k, KeyOf(n, cols));
    MatchesMeaning(k, k);
    SameKeyUnion(s, n, cols);
    SingletonSide(s, cols, k);
    SingletonSide(n, cols, k);
    var row := FinRow(k, Some(s), Some(n));
    assert Pairs([Some(s)], [Some(n)], k) == [row] + Pairs([], [Some(n)], k);
    OneKeyRows([s], [n], cols, k, row);
  }

  lemma {:induction false} SingleRowTotal(row: FinRow, fields: seq<string>, j: nat)
    requires j < |fields|
    ensures FieldTotal([row], fields, j) == MoneyOf(row.src, row.target, fields[j]).absDelta
  {
    assert FieldColumn([row], fields, j) == [MoneyOf(row.src, row.target, fields[j]).absDelta];
    assert FieldColumn([row], fields, j)[..0] == [];
  }

  lemma {:induction false} MatchedPairTotal(s: Row, n: Row, cols: seq<string>, fields: seq<string>, j: nat)
    requires Matches(KeyOf(s, cols), KeyOf(n, cols))
    requires j < |fields|
    ensures FieldTotal(FinancialRows([s], [n], cols), fields, j)
      == Some(Abs(Coerce(Get(n, fields[j])) - Coerce(Get(s, fields[j]))))
  {
    var f := fields[j];
    assert MoneyOf(Some(s), Some(n), f).absDelta == Some(Abs(Coerce(Get(n, f)) - Coerce(Get(s, f))));
    MatchedPairRows(s, n, cols);
    SingleRowTotal(FinRow(KeyOf(s, cols), Some(s), Some(n)), fields, j);
  }

  /** Corrected: joined on the beneficiary key the view groups by, the same
      pair meets, and the field total is exactly its absolute difference. */
  lemma {:induction false} NarrowKeyKeepsDifference(s: Row, n: Row, fields: seq<string>, j: nat)
    requires Matches(KeyOf(s, BeneficiaryKey), KeyOf(n, BeneficiaryKey))
    requires j < |fields|
    ensures FinancialRows([s], [n], BeneficiaryKey) == [FinRow(KeyOf(s, BeneficiaryKey), Some(s), Some(n))]
    ensures FieldTotal(FinancialRows([s], [n], BeneficiaryKey), fields, j)
      == Some(Abs(Coerce(Get(n, fields[j])) - Coerce(Get(s, fields[j]))))
  {
    MatchedPairRows(s, n, BeneficiaryKey);
    MatchedPairTotal(s, n, BeneficiaryKey, fields, j);
  }

  /** The positive totals are exactly those with a positive difference on
      some row. */
  lemma {:induction false} FieldPositive(rows: seq<FinRow>, fields: seq<string>, j: nat)
    requires j < |fields|
    ensures (FieldTotal(rows, fields, j).Some? && FieldTotal(rows, fields, j).value > 0.0)
      <==> exists r :: r in rows && MoneyOf(r.src, r.target, fields[j]).absDelta.Some?
                      && MoneyOf(r.src, r.target, fields[j]).absDelta.value > 0.0
  {
    var c := FieldColumn(rows, fields, j);
    FieldColumnNonNegative(rows, fields, j);
    PositiveSumIff(c);
    if exists r :: r in rows && MoneyOf(r.src, r.target, fields[j]).absDelta.Some?
                   && MoneyOf(r.src, r.target, fields[j]).absDelta.value > 0.0 {
      var r :| r in rows && MoneyOf(r.src, r.target, fields[j]).absDelta.Some?
               && MoneyOf(r.src, r.target, fields[j]).absDelta.value > 0.0;
      var i :| 0 <= i < |rows| && rows[i] == r;
      assert c[i].Some? && c[i].value > 0.0;
    }
  }

  /** The grouping key of `vw_financial_differences_*`: the first `w` key
      columns (`DESYNPUF_ID, YEAR` of the six beneficiary columns; all four
      claim columns). */
  function Prefix(k: Key, w: nat): Key
  {
    if |k| >= w then k[..w] else k
  }

  function Members(rows: seq<FinRow>, w: nat, g: Key): (m: seq<FinRow>)
    ensures forall r :: r in m <==> r in rows && Prefix(r.key, w) == g
  {
    if |rows| == 0 then []
    else
      var init := rows[..|rows| - 1];
      var last := rows[|rows| - 1];
      assert forall r :: r in rows <==> r in init || r == last by {
        assert rows == init + [last];
      }
      Members(init, w, g) + (if Prefix(last.key, w) == g then [last] else [])
  }

  /** `sum(abs_delta_<field>)` for every field over one group. */
  function GroupSums(rows: seq<FinRow>, fields: seq<string>, w: nat, g: Key): (sums: seq<Option<real>>)
    ensures |sums| == |fields|
    ensures forall j :: 0 <= j < |fields| ==> sums[j] == FieldTotal(Members(rows, w, g), fields, j)
  {
    seq(|fields|, j requires 0 <= j < |fields| => FieldTotal(Members(rows, w, g), fields, j))
  }

  /** `WHERE list_sum(list_value(...)) > 0`: `list_sum` skips NULLs and is
      NULL over NULLs only. */
  predicate Reported(sums: seq<Option<real>>)
  {
    SumSkipNullReal(sums).Some? && SumSkipNullReal(sums).value > 0.0
  }

  datatype DiffRow = DiffRow(key: Key, sums: seq<Option<real>>)

  function GroupKeysOf(rows: seq<FinRow>, w: nat): (gs: seq<Key>)
    ensures forall g :: g in gs <==> exists r :: r in rows && Prefix(r.key, w) == g
    ensures forall i, j :: 0 <= i < j < |gs| ==> gs[i] != gs[j]
  {
    var ps := seq(|rows|, i requires 0 <= i < |rows| => Prefix(rows[i].key, w));
    assert forall g :: g in ps <==> exists r :: r in rows && Prefix(r.key, w) == g by {
      forall g | exists r :: r in rows && Prefix(r.key, w) == g ensures g in ps {
        var r :| r in rows && Prefix(r.key, w) == g;
        var i :| 0 <= i < |rows| && rows[i] == r;
        assert ps[i] == g;
      }
    }
    Distinct(ps)
  }

  function ViewFor(gs: seq<Key>, rows: seq<FinRow>, fields: seq<string>, w: nat): (view: seq<DiffRow>)
    requires forall i, j :: 0 <= i < j < |gs| ==> gs[i] != gs[j]
    ensures forall d :: d in view <==> d.key in gs && d.sums == GroupSums(rows, fields, w, d.key) && Reported(d.sums)
    ensures forall i, j :: 0 <= i < j < |view| ==> view[i].key != view[j].key
  {
    if |gs| == 0 then []
    else
      var init := gs[..|gs| - 1];
      var g := gs[|gs| - 1];
      assert forall x :: x in gs <==> x in init || x == g by {
        assert gs == init + [g];
      }
      assert g !in init;
      var sums := GroupSums(rows, fields, w, g);
      ViewFor(init, rows, fields, w) + (if Reported(sums) then [DiffRow(g, sums)] else [])
  }

  /** `vw_financial_differences_bene` (`w` = 2) and
      `vw_financial_differences_claim` (`w` = 4): per group, the sum of
      every absolute delta, kept when their sum is positive. */
  function DifferenceView(rows: seq<FinRow>, fields: seq<string>, w: nat): (view: seq<DiffRow>)
    ensures forall d :: d in view <==>
      (exists r :: r in rows && Prefix(r.key, w) == d.key) && d.sums == GroupSums(rows, fields, w, d.key) && Reported(d.sums)
    ensures forall i, j :: 0 <= i < j < |view| ==> view[i].key != view[j].key
  {
    ViewFor(GroupKeysOf(rows, w), rows, fields, w)
  }

  /** A group is reported exactly when one of its rows has a nonzero
      difference on some field. */
  lemma {:induction false} GroupReported(rows: seq<FinRow>, fields: seq<string>, w: nat, g: Key)
    ensures Reported(GroupSums(rows, fields, w, g)) <==>
      exists r, j :: r in rows && Prefix(r.key, w) == g && 0 <= j < |fields|
        && MoneyOf(r.src, r.target, fields[j]).absDelta.Some? && MoneyOf(r.src, r.target, fields[j]).absDelta.value > 0.0
  {
    var m := Members(rows, w, g);
    var sums := GroupSums(rows, fields, w, g);
    forall j | 0 <= j < |fields| ensures sums[j].Some? ==> sums[j].value >= 0.0 {
      FieldColumnNonNegative(m, fields, j);
    }
    PositiveSumIff(sums);
    forall j | 0 <= j < |fields|
      ensures (sums[j].Some? && sums[j].value > 0.0) <==>
        exists r :: r in m && MoneyOf(r.src, r.target, fields[j]).absDelta.Some? && MoneyOf(r.src, r.target, fields[j]).absDelta.value > 0.0
    {
      FieldPositive(m, fields, j);
    }
  }

  /** The difference view lists a beneficiary-year (claim) exactly when some
      joined row of it shows a nonzero difference: one-sided rows, whose
      deltas are NULL, never put a key in the view. */
  lemma {:induction false} DifferenceViewMeaning(rows: seq<FinRow>, fields: seq<string>, w: nat, g: Key)
    ensures (exists d :: d in DifferenceView(rows, fields, w) && d.key == g) <==>
      exists r, j :: r in rows && Prefix(r.key, w) == g && 0 <= j < |fields|
        && MoneyOf(r.src, r.target, fields[j]).absDelta.Some? && MoneyOf(r.src, r.target, fields[j]).absDelta.value > 0.0
  {
    GroupReported(rows, fields, w, g);
    if exists d :: d in DifferenceView(rows, fields, w) && d.key == g {
      var d :| d in DifferenceView(rows, fields, w) && d.key == g;
      InViewReported(rows, fields, w, d);
    }
    if exists r, j :: r in rows && Prefix(r.key, w) == g && 0 <= j < |fields|
        && MoneyOf(r.src, r.target, fields[j]).absDelta.Some? && MoneyOf(r.src, r.target, fields[j]).absDelta.value > 0.0 {
      var r, j :| r in rows && Prefix(r.key, w) == g && 0 <= j < |fields|
        && MoneyOf(r.src, r.target, fields[j]).absDelta.Some? && MoneyOf(r.src, r.target, fields[j]).absDelta.value > 0.0;
      ReportedInView(rows, fields, w, r);
    }
  }

  /** A row of the difference view is a reported group. */
  lemma {:induction false} InViewReported(rows: seq<FinRow>, fields: seq<string>, w: nat, d: DiffRow)
    requires d in DifferenceView(rows, fields, w)
    ensures Reported(GroupSums(rows, fields, w, d.key))
  {
  }

  /** A reported group of some row has its row in the difference view. */
  lemma {:induction false} ReportedInView(rows: seq<FinRow>, fields: seq<string>, w: nat, r: FinRow)
    requires r in rows && Reported(GroupSums(rows, fields, w, Prefix(r.key, w)))
    ensures DiffRow(Prefix(r.key, w), GroupSums(rows, fields, w, Prefix(r.key, w))) in DifferenceView(rows, fields, w)
  {
  }

  /** One column of the difference view. */
  function MetricColumn(view: seq<DiffRow>, j: nat): (c: seq<Option<real>>)
    requires forall i :: 0 <= i < |view| ==> j < |view[i].sums|
    ensures |c| == |view|
    ensures forall i :: 0 <= i < |view| ==> c[i] == view[i].sums[j]
  {
    seq(|view|, i requires 0 <= i < |view| => view[i].sums[j])
  }

  /** `sum(metric_value)` for one metric over the difference view. */
  function MetricTotal(view: seq<DiffRow>, j: nat): Option<real>
    requires forall i :: 0 <= i < |view| ==> j < |view[i].sums|
  {
    SumSkipNullReal(MetricColumn(view, j))
  }

  /** The group key and the absolute delta (0 where NULL) of every row, as
      grouping entries. */
  function DeltaEntries(rows: seq<FinRow>, fields: seq<string>, w: nat, j: nat): (es: seq<Entry<Key>>)
    requires j < |fields|
    ensures |es| == |rows|
    ensures forall i :: 0 <= i < |rows| ==> es[i] == DeltaEntry(rows[i], fields, w, j)
  {
    seq(|rows|, i requires 0 <= i < |rows| => DeltaEntry(rows[i], fields, w, j))
  }

  /** One row's contribution: its group and its absolute delta, NULL read
      as zero. */
  function DeltaEntry(r: FinRow, fields: seq<string>, w: nat, j: nat): (e: Entry<Key>)
    requires j < |fields|
    ensures e.key == Prefix(r.key, w)
  {
    Entry(Prefix(r.key, w), Coalesce(MoneyOf(r.src, r.target, fields[j]).absDelta, 0.0))
  }

  lemma {:induction false} CoalesceSumAppend(c: seq<Option<real>>, x: Option<real>)
    ensures Coalesce(SumSkipNullReal(c + [x]), 0.0) == Coalesce(SumSkipNullReal(c), 0.0) + Coalesce(x, 0.0)
  {
    assert (c + [x])[..|c|] == c;
  }

  lemma {:induction false} DeltaEntriesSnoc(rows: seq<FinRow>, r: FinRow, fields: seq<string>, w: nat, j: nat)
    requires j < |fields|
    ensures DeltaEntries(rows + [r], fields, w, j) == DeltaEntries(rows, fields, w, j) + [DeltaEntry(r, fields, w, j)]
  {
  }

  lemma {:induction false} FieldColumnSnoc(rows: seq<FinRow>, r: FinRow, fields: seq<string>, j: nat)
    requires j < |fields|
    ensures FieldColumn(rows + [r], fields, j) == FieldColumn(rows, fields, j) + [MoneyOf(r.src, r.target, fields[j]).absDelta]
  {
  }

  lemma {:induction false} DeltaEntriesTotal(rows: seq<FinRow>, fields: seq<string>, w: nat, j: nat)
    requires j < |fields|
    ensures Total(DeltaEntries(rows, fields, w, j)) == Coalesce(FieldTotal(rows, fields, j), 0.0)
  {
    if |rows| > 0 {
      var init := rows[..|rows| - 1];
      var last := rows[|rows| - 1];
      assert rows == init + [last];
      DeltaEntriesTotal(init, fields, w, j);
      var x := MoneyOf(last.src, last.target, fields[j]).absDelta;
      DeltaEntriesSnoc(init, last, fields, w, j);
      TotalAppend(DeltaEntries(init, fields, w, j), DeltaEntry(last, fields, w, j));
      FieldColumnSnoc(init, last, fields, j);
      CoalesceSumAppend(FieldColumn(init, fields, j), x);
    }
  }

  lemma {:induction false} DeltaEntriesLast(rows: seq<FinRow>, fields: seq<string>, w: nat, j: nat)
    requires j < |fields|
    requires |rows| > 0
    ensures DeltaEntries(rows, fields, w, j)
      == DeltaEntries(rows[..|rows| - 1], fields, w, j) + [DeltaEntry(rows[|rows| - 1], fields, w, j)]
  {
  }

  lemma {:induction false} FilterIsMembers(rows: seq<FinRow>, fields: seq<string>, w: nat, j: nat, g: Key)
    requires j < |fields|
    ensures Filter(DeltaEntries(rows, fields, w, j), g) == DeltaEntries(Members(rows, w, g), fields, w, j)
  {
    if |rows| > 0 {
      var init := rows[..|rows| - 1];
      var last := rows[|rows| - 1];
      FilterIsMembers(init, fields, w, j, g);
      DeltaEntriesLast(rows, fields, w, j);
      FilterStep(init, last, fields, w, j, g);
    }
  }

  /** One step of the induction above, kept apart for the solver. */
  lemma {:induction false} FilterStep(init: seq<FinRow>, last: FinRow, fields: seq<string>, w: nat, j: nat, g: Key)
    requires j < |fields|
    requires Filter(DeltaEntries(init, fields, w, j), g) == DeltaEntries(Members(init, w, g), fields, w, j)
    ensures Filter(DeltaEntries(init, fields, w, j) + [DeltaEntry(last, fields, w, j)], g)
      == DeltaEntries(Members(init, w, g) + (if Prefix(last.key, w) == g then [last] else []), fields, w, j)
  {
    var e := DeltaEntry(last, fields, w, j);
    FilterAppend(DeltaEntries(init, fields, w, j), e, g);
    if Prefix(last.key, w) == g {
      DeltaEntriesSnoc(Members(init, w, g), last, fields, w, j);
    } else {
      assert Members(init, w, g) + [] == Members(init, w, g);
    }
  }

  /** A group's total of one field, read as 0 when NULL, is its grouping
      total. */
  lemma {:induction false} GroupTotalIsFilter(rows: seq<FinRow>, fields: seq<string>, w: nat, j: nat, g: Key)
    requires j < |fields|
    ensures Coalesce(FieldTotal(Members(rows, w, g), fields, j), 0.0) == Total(Filter(DeltaEntries(rows, fields, w, j), g))
  {
    FilterIsMembers(rows, fields, w, j, g);
    DeltaEntriesTotal(Members(rows, w, g), fields, w, j);
  }

  /** A group the view drops has nothing but zeros and NULLs. */
  lemma {:induction false} DroppedGroupIsZero(rows: seq<FinRow>, fields: seq<string>, w: nat, g: Key, j: nat)
    requires j < |fields|
    requires !Reported(GroupSums(rows, fields, w, g))
    ensures Coalesce(GroupSums(rows, fields, w, g)[j], 0.0) == 0.0
  {
    var sums := GroupSums(rows, fields, w, g);
    forall i | 0 <= i < |fields| ensures sums[i].Some? ==> sums[i].value >= 0.0 {
      FieldColumnNonNegative(Members(rows, w, g), fields, i);
    }
    PositiveSumIff(sums);
  }

  lemma {:induction false} MetricColumnSnoc(view: seq<DiffRow>, d: DiffRow, j: nat)
    requires forall i :: 0 <= i < |view| ==> j < |view[i].sums|
    requires j < |d.sums|
    ensures MetricColumn(view + [d], j) == MetricColumn(view, j) + [d.sums[j]]
  {
  }

  /** The last group adds its sum to a metric's total over the view when
      the view reports it, and zero otherwise. */
  lemma {:induction false} ViewForLast(gs: seq<Key>, rows: seq<FinRow>, fields: seq<string>, w: nat, j: nat)
    requires forall a, b :: 0 <= a < b < |gs| ==> gs[a] != gs[b]
    requires |gs| > 0 && j < |fields|
    ensures Coalesce(MetricTotal(ViewFor(gs, rows, fields, w), j), 0.0) ==
      Coalesce(MetricTotal(ViewFor(gs[..|gs| - 1], rows, fields, w), j), 0.0)
        + Coalesce(GroupSums(rows, fields, w, gs[|gs| - 1])[j], 0.0)
  {
    var g := gs[|gs| - 1];
    var sums := GroupSums(rows, fields, w, g);
    var before := ViewFor(gs[..|gs| - 1], rows, fields, w);
    if Reported(sums) {
      var d := DiffRow(g, sums);
      assert ViewFor(gs, rows, fields, w) == before + [d];
      MetricColumnSnoc(before, d, j);
      CoalesceSumAppend(MetricColumn(before, j), sums[j]);
    } else {
      DroppedGroupIsZero(rows, fields, w, g, j);
      assert ViewFor(gs, rows, fields, w) == before;
    }
  }

  lemma {:induction false} ViewForTotal(gs: seq<Key>, rows: seq<FinRow>, fields: seq<string>, w: nat, j: nat)
    requires forall a, b :: 0 <= a < b < |gs| ==> gs[a] != gs[b]
    requires j < |fields|
    ensures Coalesce(MetricTotal(ViewFor(gs, rows, fields, w), j), 0.0) == Total(GroupRows(gs, DeltaEntries(rows, fields, w, j)))
  {
    if |gs| > 0 {
      var g := gs[|gs| - 1];
      ViewForTotal(gs[..|gs| - 1], rows, fields, w, j);
      ViewForLast(gs, rows, fields, w, j);
      GroupTotalIsFilter(rows, fields, w, j, g);
      GroupRowsLast(gs, DeltaEntries(rows, fields, w, j));
    }
  }

  /** The view loses no money: dropped groups carry only zeros, so a
      field's total over the difference view equals its total over the
      whole table (NULL read as 0 on both sides). */
  lemma {:induction false} DifferenceViewConserves(rows: seq<FinRow>, fields: seq<string>, w: nat, j: nat)
    requires j < |fields|
    ensures Coalesce(MetricTotal(DifferenceView(rows, fields, w), j), 0.0) == Coalesce(FieldTotal(rows, fields, j), 0.0)
  {
    var es := DeltaEntries(rows, fields, w, j);
    var gs := GroupKeysOf(rows, w);
    ViewForTotal(gs, rows, fields, w, j);
    assert KeysOf(es) == seq(|rows|, i requires 0 <= i < |rows| => Prefix(rows[i].key, w));
    assert GroupKeys(es) == gs;
    GroupByConserves(es);
    DeltaEntriesTotal(rows, fields, w, j);
  }
}
