/** Six-sigma scoring of the audit tables: DPMO and yield per dataset, per
    column and per field family, and the Pareto view of the families. A
    flag is a defect, an audited field of an audited row an opportunity. */
module Quality {
  import opened Sql
  import opened Text
  import opened Table
  import opened Schema
  import opened Audit
  import opened Group
  import opened Pareto

  const Million: real := 1000000.0

  /** The flags the dataset view adds up: those from position `lo` on (the
      carrier view leaves out the two claim-date flags). */
  function Summed(row: AuditRow, lo: nat): (fs: seq<Option<int>>)
    ensures lo <= |row.flags| ==> fs == row.flags[lo..]
    ensures lo > |row.flags| ==> fs == []
  {
    if lo <= |row.flags| then row.flags[lo..] else []
  }

  /** `f1 + f2 + ... + fn` for one audit row: NULL as soon as one flag is. */
  function RowDefects(row: AuditRow, lo: nat): (d: Option<int>)
    ensures d.Some? <==> NoNulls(Summed(row, lo))
  {
    PlusChainNull(Summed(row, lo));
    PlusChain(Summed(row, lo))
  }

  function AllRowDefects(rows: seq<AuditRow>, lo: nat): (ds: seq<Option<int>>)
    ensures |ds| == |rows|
    ensures forall i :: 0 <= i < |rows| ==> ds[i] == RowDefects(rows[i], lo)
  {
    seq(|rows|, i requires 0 <= i < |rows| => RowDefects(rows[i], lo))
  }

  /** `CAST(d AS FLOAT) / n`: NULL when `d` is NULL or `n` is 0. */
  function Ratio(d: Option<int>, n: nat): (r: Option<real>)
    ensures r.Some? <==> d.Some? && n > 0
  {
    if d.Some? && n > 0 then Some(d.value as real / n as real) else None
  }

  datatype Score = Score(units: nat, defects: Option<int>, opportunities: nat, dpmo: Option<real>, yieldRatio: Option<real>)

  /** One row of `vw_sigma_analysis`: `COUNT(*)` units, `SUM(<flag chain>)`
      defects, `COUNT(*) * perUnit` opportunities, and DPMO and YIELD from
      their ratio. */
  function DatasetScore(rows: seq<AuditRow>, lo: nat, perUnit: nat): (s: Score)
    ensures s.units == |rows| && s.opportunities == |rows| * perUnit
    ensures s.defects.None? <==> forall i :: 0 <= i < |rows| ==> RowDefects(rows[i], lo).None?
    ensures s.dpmo.Some? <==> s.defects.Some? && s.opportunities > 0
    ensures s.yieldRatio.Some? <==> s.dpmo.Some?
  {
    var d := SumSkipNull(AllRowDefects(rows, lo));
    var q := Ratio(d, |rows| * perUnit);
    Score(|rows|, d, |rows| * perUnit,
          if q.Some? then Some(q.value * Million) else None,
          if q.Some? then Some(1.0 - q.value) else None)
  }

  /** The beneficiary score: all 31 flags summed, 31 opportunities a row. */
  function BeneficiaryScore(rows: seq<AuditRow>): (s: Score)
    ensures s.opportunities == 31 * |rows|
  {
    DatasetScore(rows, 0, 31)
  }

  /** The carrier score as written: the 138 slot flags are summed but each
      row is credited with only 102 opportunities. */
  function CarrierScoreAsWritten(rows: seq<AuditRow>): (s: Score)
    ensures s.opportunities == 102 * |rows|
  {
    DatasetScore(rows, 2, 102)
  }

  /** The carrier score with as many opportunities per row as flags summed:
      the 138 slot columns (`CarrierColumnCounts`). */
  function CarrierScore(rows: seq<AuditRow>): (s: Score)
    ensures s.opportunities == 138 * |rows|
  {
    DatasetScore(rows, 2, 138)
  }

  /** YIELD and DPMO carry the same information: YIELD = 1 - DPMO / 10^6. */
  lemma {:induction false} YieldIsOneMinusDpmo(rows: seq<AuditRow>, lo: nat, perUnit: nat)
    ensures DatasetScore(rows, lo, perUnit).dpmo.Some? ==>
      DatasetScore(rows, lo, perUnit).yieldRatio.value == 1.0 - DatasetScore(rows, lo, perUnit).dpmo.value / Million
  {
  }

  /** Every audit row has `width` flags, each NULL, 0 or 1. */
  predicate FlagsWellFormed(rows: seq<AuditRow>, width: nat)
  {
    forall i :: 0 <= i < |rows| ==> |rows[i].flags| == width && ZeroOne(rows[i].flags)
  }

  predicate ZeroOne(fs: seq<Option<int>>)
  {
    forall f :: 0 <= f < |fs| ==> fs[f].None? || fs[f].value == 0 || fs[f].value == 1
  }

  lemma {:induction false} ChainBounded(fs: seq<Option<int>>)
    requires ZeroOne(fs)
    ensures PlusChain(fs).Some? ==> 0 <= PlusChain(fs).value <= |fs|
  {
    if |fs| > 0 {
      ChainBounded(fs[..|fs| - 1]);
    }
  }

  lemma {:induction false} SumSkipNullBounded(xs: seq<Option<int>>, b: int)
    requires b >= 0
    requires forall i :: 0 <= i < |xs| ==> xs[i].None? || 0 <= xs[i].value <= b
    ensures SumSkipNull(xs).Some? ==> 0 <= SumSkipNull(xs).value <= |xs| * b
  {
    if |xs| > 0 {
      SumSkipNullBounded(xs[..|xs| - 1], b);
      assert (|xs| - 1) * b + b == |xs| * b;
      assert 0 <= (|xs| - 1) * b;
    }
  }

  /** `d / n` lies in [0, 1] when `0 <= d <= n`. */
  lemma {:induction false} FractionBounds(d: int, n: nat)
    requires 0 <= d <= n && n > 0
    ensures 0.0 <= d as real / n as real <= 1.0
  {
    var q := d as real / n as real;
    assert q * n as real == d as real;
  }

  /** When the opportunities per row match the flags summed, defects never
      exceed opportunities, so DPMO stays within [0, 10^6] and YIELD within
      [0, 1]. */
  lemma {:induction false} DefectsBounded(rows: seq<AuditRow>, lo: nat, perUnit: nat)
    requires FlagsWellFormed(rows, lo + perUnit)
    ensures var s := DatasetScore(rows, lo, perUnit);
      s.defects.Some? ==> 0 <= s.defects.value <= s.opportunities
    ensures var s := DatasetScore(rows, lo, perUnit);
      s.dpmo.Some? ==> 0.0 <= s.dpmo.value <= Million && 0.0 <= s.yieldRatio.value <= 1.0
  {
    var ds := AllRowDefects(rows, lo);
    forall i | 0 <= i < |ds| ensures ds[i].None? || 0 <= ds[i].value <= perUnit {
      var fs := Summed(rows[i], lo);
      assert ZeroOne(fs) by {
        forall f | 0 <= f < |fs| ensures fs[f].None? || fs[f].value == 0 || fs[f].value == 1 {
          assert fs[f] == rows[i].flags[lo + f];
        }
      }
      ChainBounded(fs);
    }
    SumSkipNullBounded(ds, perUnit);
    var s := DatasetScore(rows, lo, perUnit);
    if s.dpmo.Some? {
      FractionBounds(s.defects.value, s.opportunities);
    }
  }

  /** Beneficiary opportunities equal the 31 flags summed: the score is
      bounded. */
  lemma {:induction false} BeneficiaryScoreBounded(rows: seq<AuditRow>)
    requires FlagsWellFormed(rows, |BeneficiaryFields|)
    ensures var s := BeneficiaryScore(rows);
      (s.defects.Some? ==> 0 <= s.defects.value <= s.opportunities)
      && (s.dpmo.Some? ==> 0.0 <= s.dpmo.value <= Million && 0.0 <= s.yieldRatio.value <= 1.0)
  {
    BeneficiaryFieldCount();
    DefectsBounded(rows, 0, 31);
  }

  /** The corrected carrier score is bounded in the same way. */
  lemma {:induction false} CarrierScoreBounded(rows: seq<AuditRow>)
    requires FlagsWellFormed(rows, 140)
    ensures var s := CarrierScore(rows);
      (s.defects.Some? ==> 0 <= s.defects.value <= s.opportunities)
      && (s.dpmo.Some? ==> 0.0 <= s.dpmo.value <= Million && 0.0 <= s.yieldRatio.value <= 1.0)
  {
    DefectsBounded(rows, 2, 138);
  }

  lemma {:induction false} ChainOfOnes(n: nat)
    ensures PlusChain(seq(n, i => Some(1))) == Some(n)
  {
    if n > 0 {
      ChainOfOnes(n - 1);
      assert seq(n, i => Some(1))[..n - 1] == seq(n - 1, i => Some(1));
    }
  }

  /** As written, one carrier claim that differs in every slot field scores
      138 defects against 102 opportunities: DPMO above 10^6 and a negative
      YIELD. */
  lemma {:induction false} CarrierAsWrittenExceedsBound()
    ensures var row := AuditRow([], seq(140, i => Some(1)));
      FlagsWellFormed([row], 140)
      && CarrierScoreAsWritten([row]).defects == Some(138)
      && CarrierScoreAsWritten([row]).dpmo.value > Million
      && CarrierScoreAsWritten([row]).yieldRatio.value < 0.0
  {
    OnesRowDefects(138);
    var row := AuditRow([], seq(140, i => Some(1)));
    SingleRowScore(row, 2, 102);
    FractionAboveOne(138, 102);
  }

  /** `d / n` exceeds 1 when `d > n`. */
  lemma {:induction false} FractionAboveOne(d: int, n: nat)
    requires d > n > 0
    ensures d as real / n as real > 1.0
    ensures d as real / n as real * Million > Million
  {
    var q := d as real / n as real;
    assert q * n as real == d as real;
  }

  /** A row whose summed flags are all 1 has as many defects as flags. */
  lemma {:induction false} OnesRowDefects(n: nat)
    ensures RowDefects(AuditRow([], seq(n + 2, i => Some(1))), 2) == Some(n)
  {
    assert Summed(AuditRow([], seq(n + 2, i => Some(1))), 2) == seq(n, i => Some(1));
    ChainOfOnes(n);
  }

  lemma {:induction false} SingleRowScore(row: AuditRow, lo: nat, perUnit: nat)
    requires RowDefects(row, lo).Some? && perUnit > 0
    ensures DatasetScore([row], lo, perUnit).defects == RowDefects(row, lo)
    ensures DatasetScore([row], lo, perUnit).dpmo == Some(RowDefects(row, lo).value as real / perUnit as real * Million)
    ensures DatasetScore([row], lo, perUnit).yieldRatio == Some(1.0 - RowDefects(row, lo).value as real / perUnit as real)
  {
    var ds := AllRowDefects([row], lo);
    assert ds[..0] == [];
  }

  /** The single-statement build sets every flag to 0 or 1. */
  lemma {:induction false} PairingsWellFormed(ss: seq<Option<Row>>, ns: seq<Option<Row>>, fields: seq<Column>, k: Key)
    ensures FlagsWellFormed(Pairings(ss, ns, fields, k), |fields|)
    ensures forall i :: 0 <= i < |Pairings(ss, ns, fields, k)| ==> NoNulls(Pairings(ss, ns, fields, k)[i].flags)
  {
    if |ss| > 0 {
      PairingsWellFormed(ss[1..], ns, fields, k);
    }
  }

  lemma {:induction false} AuditForWellFormed(keys: seq<Key>, src: seq<Row>, target: seq<Row>, keyCols: seq<string>, fields: seq<Column>)
    ensures FlagsWellFormed(AuditFor(keys, src, target, keyCols, fields), |fields|)
    ensures forall i :: 0 <= i < |AuditFor(keys, src, target, keyCols, fields)| ==>
      NoNulls(AuditFor(keys, src, target, keyCols, fields)[i].flags)
  {
    if |keys| > 0 {
      AuditForWellFormed(keys[..|keys| - 1], src, target, keyCols, fields);
      var k := keys[|keys| - 1];
      PairingsWellFormed(LeftSide(src, keyCols, k), LeftSide(target, keyCols, k), fields, k);
    }
  }

  lemma {:induction false} BuildAuditWellFormed(src: seq<Row>, target: seq<Row>, keyCols: seq<string>, fields: seq<Column>)
    ensures FlagsWellFormed(BuildAudit(src, target, keyCols, fields), |fields|)
    ensures forall i :: 0 <= i < |BuildAudit(src, target, keyCols, fields)| ==>
      NoNulls(BuildAudit(src, target, keyCols, fields)[i].flags)
  {
    AuditForWellFormed(KeyUnion(src, target, keyCols), src, target, keyCols, fields);
  }

  /** The alternative build's flags are NULL, 0 or 1. */
  lemma {:induction false} AltAuditWellFormed(src: seq<Row>, target: seq<Row>, keyCols: seq<string>, fields: seq<Column>)
    ensures FlagsWellFormed(AltAudit(src, target, keyCols, fields), |fields|)
  {
  }

  /** A row of the alternative build that no source row matches counts as
      a unit in the dataset score but contributes no defects, because its
      NULL flags make the `+` chain NULL and `SUM` skips it. */
  lemma {:induction false} UnmatchedAltRowAddsUnitOnly(rows: seq<AuditRow>, row: AuditRow, lo: nat, perUnit: nat)
    requires lo < |row.flags| && row.flags[lo].None?
    ensures DatasetScore(rows + [row], lo, perUnit).units == DatasetScore(rows, lo, perUnit).units + 1
    ensures DatasetScore(rows + [row], lo, perUnit).defects == DatasetScore(rows, lo, perUnit).defects
  {
    assert Summed(row, lo)[0].None?;
    assert AllRowDefects(rows + [row], lo)[..|rows|] == AllRowDefects(rows, lo);
  }

  lemma {:induction false} AltUnmatchedRowsHaveNoDefects(src: seq<Row>, target: seq<Row>, keyCols: seq<string>, fields: seq<Column>, i: nat, lo: nat)
    requires UniqueOnKey(src, keyCols) && UniqueOnKey(target, keyCols)
    requires i < |AltAudit(src, target, keyCols, fields)| && lo < |fields|
    requires forall r :: r in src ==> !Matches(AltAudit(src, target, keyCols, fields)[i].key, KeyOf(r, keyCols))
    ensures RowDefects(AltAudit(src, target, keyCols, fields)[i], lo).None?
  {
    AltAgreesOnSourceKeys(src, target, keyCols, fields);
    assert Summed(AltAudit(src, target, keyCols, fields)[i], lo)[0].None?;
  }

  /** One column of the audit table (NULL where a row is too short). */
  function ColumnFlags(rows: seq<AuditRow>, j: nat): (c: seq<Option<int>>)
    ensures |c| == |rows|
    ensures forall i :: 0 <= i < |rows| && j < |rows[i].flags| ==> c[i] == rows[i].flags[j]
  {
    seq(|rows|, i requires 0 <= i < |rows| => if j < |rows[i].flags| then rows[i].flags[j] else None)
  }

  function CountNonNull(xs: seq<Option<int>>): (n: nat)
    ensures n <= |xs|
    ensures n == 0 <==> forall i :: 0 <= i < |xs| ==> xs[i].None?
  {
    if |xs| == 0 then 0
    else CountNonNull(xs[..|xs| - 1]) + (if xs[|xs| - 1].Some? then 1 else 0)
  }

  datatype ColumnStat = ColumnStat(name: string, defects: int, opportunities: nat, dpmo: real)

  /** One group of `vw_sigma_analysis_columns`: the `UNPIVOT` drops NULL
      flags, so a column whose flags are all NULL has no group at all, and
      the opportunities are the non-NULL flags only. */
  function ColumnScore(rows: seq<AuditRow>, j: nat, name: string): (c: Option<ColumnStat>)
    ensures c.None? <==> forall i :: 0 <= i < |rows| ==> ColumnFlags(rows, j)[i].None?
    ensures c.Some? ==> c.value.name == name && c.value.opportunities == CountNonNull(ColumnFlags(rows, j)) > 0
    ensures c.Some? ==> SumSkipNull(ColumnFlags(rows, j)) == Some(c.value.defects)
  {
    var xs := ColumnFlags(rows, j);
    var n := CountNonNull(xs);
    var d := SumSkipNull(xs);
    if d.None? then None
    else Some(ColumnStat(name, d.value, n, d.value as real / n as real * Million))
  }

  lemma {:induction false} ColumnSumBounded(xs: seq<Option<int>>)
    requires ZeroOne(xs)
    ensures SumSkipNull(xs).Some? ==> 0 <= SumSkipNull(xs).value <= CountNonNull(xs)
  {
    if |xs| > 0 {
      ColumnSumBounded(xs[..|xs| - 1]);
    }
  }

  /** A column's defects never exceed its opportunities, so its DPMO is at
      most 10^6. */
  lemma {:induction false} ColumnScoreBounded(rows: seq<AuditRow>, j: nat, name: string)
    requires FlagsWellFormed(rows, j + 1)
    ensures ColumnScore(rows, j, name).Some? ==>
      0 <= ColumnScore(rows, j, name).value.defects <= ColumnScore(rows, j, name).value.opportunities
      && 0.0 <= ColumnScore(rows, j, name).value.dpmo <= Million
  {
    var xs := ColumnFlags(rows, j);
    assert ZeroOne(xs);
    ColumnSumBounded(xs);
    var c := ColumnScore(rows, j, name);
    if c.Some? {
      FractionBounds(c.value.defects, c.value.opportunities);
    }
  }

  /** The whole-column view over the columns from `lo` on, named by `names`,
      in column order. */
  function ColumnScores(rows: seq<AuditRow>, names: seq<string>, lo: nat): (cs: seq<ColumnStat>)
    ensures lo <= |names| ==> |cs| <= |names| - lo
    ensures forall c :: c in cs ==> c.opportunities > 0
    decreases |names| - lo
  {
    if lo >= |names| then []
    else
      var rest := ColumnScores(rows, names, lo + 1);
      match ColumnScore(rows, lo, names[lo])
      case None => rest
      case Some(c) => [c] + rest
  }

  /** On the single-statement build no flag is NULL, so every column has a
      group and its opportunities are all the rows. */
  lemma {:induction false} FullColumn(rows: seq<AuditRow>, j: nat, name: string)
    requires |rows| > 0
    requires forall i :: 0 <= i < |rows| ==> j < |rows[i].flags| && NoNulls(rows[i].flags)
    ensures ColumnScore(rows, j, name).Some?
    ensures ColumnScore(rows, j, name).value.opportunities == |rows|
  {
    var xs := ColumnFlags(rows, j);
    assert xs[0].Some?;
    AllNonNull(xs);
  }

  lemma {:induction false} AllNonNull(xs: seq<Option<int>>)
    requires NoNulls(xs)
    ensures CountNonNull(xs) == |xs|
  {
    if |xs| > 0 {
      AllNonNull(xs[..|xs| - 1]);
    }
  }

  /** One row of a family view: `sum(TOTAL_DEFECTS)`, `max(TOTAL_OPPORTUNITIES)`
      and their ratio times 10^6 (NULL on a zero maximum). Defect counts are
      carried as exact reals. */
  datatype FamilyStat = FamilyStat(family: string, defects: real, opportunities: nat, dpmo: Option<real>)

  function FamilyEntries(cs: seq<ColumnStat>): (es: seq<Entry<string>>)
    ensures |es| == |cs|
    ensures forall i :: 0 <= i < |cs| ==> es[i] == Entry(Family(cs[i].name), cs[i].defects as real)
  {
    seq(|cs|, i requires 0 <= i < |cs| => Entry(Family(cs[i].name), cs[i].defects as real))
  }

  /** `max(TOTAL_OPPORTUNITIES)` over the columns of one family (0 over none). */
  function MaxOpportunities(cs: seq<ColumnStat>, fam: string): (m: nat)
    ensures forall c :: c in cs && Family(c.name) == fam ==> c.opportunities <= m
    ensures m > 0 ==> exists c :: c in cs && Family(c.name) == fam && c.opportunities == m
  {
    if |cs| == 0 then 0
    else
      var m := MaxOpportunities(cs[..|cs| - 1], fam);
      var last := cs[|cs| - 1];
      assert forall c :: c in cs <==> c in cs[..|cs| - 1] || c == last by {
        assert cs == cs[..|cs| - 1] + [last];
      }
      if Family(last.name) == fam && last.opportunities > m then last.opportunities else m
  }

  /** `d / m * 1000000`, NULL on a zero divisor. */
  function PerMillion(d: real, m: nat): (r: Option<real>)
    ensures r.Some? <==> m > 0
  {
    if m == 0 then None else Some(d / m as real * Million)
  }

  function FamilyStatOf(cs: seq<ColumnStat>, g: Entry<string>): (f: FamilyStat)
    ensures f.family == g.key && f.defects == g.amount
    ensures f.opportunities == MaxOpportunities(cs, g.key)
  {
    var m := MaxOpportunities(cs, g.key);
    FamilyStat(g.key, g.amount, m, PerMillion(g.amount, m))
  }

  /** The `agg` step of the family views: columns grouped by family. */
  function FamilyScores(cs: seq<ColumnStat>): (fs: seq<FamilyStat>)
    ensures |fs| == |GroupBy(FamilyEntries(cs))|
    ensures forall i :: 0 <= i < |fs| ==> fs[i] == FamilyStatOf(cs, GroupBy(FamilyEntries(cs))[i])
  {
    var g := GroupBy(FamilyEntries(cs));
    seq(|g|, i requires 0 <= i < |g| => FamilyStatOf(cs, g[i]))
  }

  function FamilyTotals(fs: seq<FamilyStat>): (es: seq<Entry<string>>)
    ensures |es| == |fs|
    ensures forall i :: 0 <= i < |fs| ==> es[i] == Entry(fs[i].family, fs[i].defects)
  {
    seq(|fs|, i requires 0 <= i < |fs| => Entry(fs[i].family, fs[i].defects))
  }

  /** Every family appears once, and the family defects add up to the
      column defects: grouping loses no defect. */
  lemma {:induction false} FamiliesPartitionDefects(cs: seq<ColumnStat>)
    ensures forall i, j :: 0 <= i < j < |FamilyScores(cs)| ==> FamilyScores(cs)[i].family != FamilyScores(cs)[j].family
    ensures forall c :: c in cs ==> exists i :: 0 <= i < |FamilyScores(cs)| && FamilyScores(cs)[i].family == Family(c.name)
    ensures Total(FamilyTotals(FamilyScores(cs))) == Total(FamilyEntries(cs))
  {
    var es := FamilyEntries(cs);
    var fs := FamilyScores(cs);
    GroupByKeys(es);
    forall c | c in cs ensures exists i :: 0 <= i < |fs| && fs[i].family == Family(c.name) {
      var p :| 0 <= p < |cs| && cs[p] == c;
      assert es[p] in es;
      var i :| 0 <= i < |GroupBy(es)| && GroupBy(es)[i].key == es[p].key;
      assert fs[i].family == Family(c.name);
    }
    FamilyTotalsAreGroups(cs);
    GroupByConserves(es);
  }

  lemma {:induction false} FamilyTotalsAreGroups(cs: seq<ColumnStat>)
    ensures FamilyTotals(FamilyScores(cs)) == GroupBy(FamilyEntries(cs))
  {
    var g := GroupBy(FamilyEntries(cs));
    var t := FamilyTotals(FamilyScores(cs));
    forall i | 0 <= i < |g| ensures t[i] == g[i] {
    }
  }

  /** Where no column name carries a slot suffix (the beneficiary audit),
      each family is a single column and its figures are that column's. */
  lemma {:induction false} SingletonFamilies(cs: seq<ColumnStat>)
    requires forall i :: 0 <= i < |cs| ==> Family(cs[i].name) == cs[i].name
    requires forall i, j :: 0 <= i < j < |cs| ==> cs[i].name != cs[j].name
    ensures |FamilyScores(cs)| == |cs|
    ensures forall i :: 0 <= i < |cs| ==>
      FamilyScores(cs)[i].family == cs[i].name
      && FamilyScores(cs)[i].defects == cs[i].defects as real
      && FamilyScores(cs)[i].opportunities == cs[i].opportunities
  {
    var es := FamilyEntries(cs);
    assert forall i :: 0 <= i < |cs| ==> KeysOf(es)[i] == cs[i].name;
    DistinctOfDistinct(KeysOf(es));
    GroupRowsAt(KeysOf(es), es);
    forall i | 0 <= i < |cs|
      ensures FamilyScores(cs)[i].defects == cs[i].defects as real
      && FamilyScores(cs)[i].opportunities == cs[i].opportunities
    {
      FilterDistinct(es, i);
      assert Total([es[i]]) == es[i].amount by {
        assert [es[i]][..0] == [];
      }
      SingletonMax(cs, i);
    }
  }

  lemma {:induction false} SingletonMax(cs: seq<ColumnStat>, i: nat)
    requires forall p :: 0 <= p < |cs| ==> Family(cs[p].name) == cs[p].name
    requires forall p, q :: 0 <= p < q < |cs| ==> cs[p].name != cs[q].name
    requires i < |cs|
    ensures MaxOpportunities(cs, cs[i].name) == cs[i].opportunities
  {
    var m := MaxOpportunities(cs, cs[i].name);
    assert cs[i] in cs;
    if m > 0 {
      var c :| c in cs && Family(c.name) == cs[i].name && c.opportunities == m;
      var p :| 0 <= p < |cs| && cs[p] == c;
    }
  }

  /** The beneficiary family view repeats the column view. */
  lemma {:induction false} BeneficiaryFamiliesAreColumns(cs: seq<ColumnStat>)
    requires forall i :: 0 <= i < |cs| ==> exists j :: 0 <= j < |BeneficiaryFields| && cs[i].name == BeneficiaryFields[j].name
    requires forall i, j :: 0 <= i < j < |cs| ==> cs[i].name != cs[j].name
    ensures |FamilyScores(cs)| == |cs|
    ensures forall i :: 0 <= i < |cs| ==>
      FamilyScores(cs)[i].family == cs[i].name && FamilyScores(cs)[i].defects == cs[i].defects as real
  {
    BeneficiaryFamiliesAreSingletons();
    SingletonFamilies(cs);
  }

  /** Columns that all belong to one family form a single group. */
  lemma {:induction false} OneFamily(cs: seq<ColumnStat>, fam: string)
    requires |cs| > 0 && forall i :: 0 <= i < |cs| ==> Family(cs[i].name) == fam
    ensures FamilyScores(cs) == [FamilyStatOf(cs, Entry(fam, Total(FamilyEntries(cs))))]
  {
    var es := FamilyEntries(cs);
    GroupBySingleKey(es, fam);
    var fs := FamilyScores(cs);
    assert |fs| == 1 && fs[0] == FamilyStatOf(cs, Entry(fam, Total(es)));
  }

  /** Entries that all carry one key form a single group holding their
      total. */
  lemma {:induction false} GroupBySingleKey(es: seq<Entry<string>>, k: string)
    requires |es| > 0 && forall i :: 0 <= i < |es| ==> es[i].key == k
    ensures GroupBy(es) == [Entry(k, Total(es))]
  {
    DistinctRepeated(KeysOf(es), k);
    GroupRowsAt([k], es);
    FilterAll(es, k);
  }

  lemma {:induction false} FilterAll(es: seq<Entry<string>>, k: string)
    requires forall e :: e in es ==> e.key == k
    ensures Filter(es, k) == es
  {
    if |es| > 0 {
      var init := es[..|es| - 1];
      assert forall e :: e in init ==> e in es;
      FilterAll(init, k);
      SnocSplit(es);
    }
  }

  lemma {:induction false} TotalPair(a: Entry<string>, b: Entry<string>)
    ensures Total([a, b]) == a.amount + b.amount
  {
    TotalAppend([], a);
    TotalAppend([a], b);
    assert [] + [a] == [a] && [a] + [b] == [a, b];
  }

  lemma {:induction false} MaxPair(cs: seq<ColumnStat>, fam: string)
    requires |cs| == 2 && Family(cs[0].name) == fam && Family(cs[1].name) == fam
    ensures MaxOpportunities(cs, fam) == if cs[0].opportunities < cs[1].opportunities then cs[1].opportunities else cs[0].opportunities
  {
    assert cs[..1] == [cs[0]];
    assert cs[..1][..0] == [];
  }

  /** Two columns of one family form one family row: defects added,
      opportunities the larger of the two. */
  lemma {:induction false} TwoColumnFamily(cs: seq<ColumnStat>, fam: string)
    requires |cs| == 2 && Family(cs[0].name) == fam && Family(cs[1].name) == fam
    ensures var m := if cs[0].opportunities < cs[1].opportunities then cs[1].opportunities else cs[0].opportunities;
      var d := (cs[0].defects + cs[1].defects) as real;
      FamilyScores(cs) == [FamilyStat(fam, d, m, PerMillion(d, m))]
  {
    OneFamily(cs, fam);
    var es := FamilyEntries(cs);
    assert es == [es[0], es[1]];
    TotalPair(es[0], es[1]);
    MaxPair(cs, fam);
    var d := (cs[0].defects + cs[1].defects) as real;
    assert Total(es) == d;
    var m := MaxOpportunities(cs, fam);
    assert FamilyStatOf(cs, Entry(fam, d)) == FamilyStat(fam, d, m, PerMillion(d, m));
  }

  /** A family DPMO is not bounded by 10^6: two slots of one family, each
      wrong on its single opportunity, give 2 * 10^6. */
  lemma {:induction false} FamilyDpmoCanExceedMillion()
    ensures var cs := [ColumnStat("TAX_NUM_1", 1, 1, Million), ColumnStat("TAX_NUM_2", 1, 1, Million)];
      FamilyScores(cs) == [FamilyStat("TAX_NUM", 2.0, 1, Some(2.0 * Million))]
  {
    var cs := [ColumnStat("TAX_NUM_1", 1, 1, Million), ColumnStat("TAX_NUM_2", 1, 1, Million)];
    TaxNumSlots();
    TwoColumnFamily(cs, "TAX_NUM");
  }

  /** `TAX_NUM_1` and `TAX_NUM_2` are the first two slots of `TAX_NUM`. */
  lemma {:induction false} TaxNumSlots()
    ensures Family("TAX_NUM_1") == "TAX_NUM" && Family("TAX_NUM_2") == "TAX_NUM"
  {
    FamilyOfSlot("TAX_NUM", 1);
    FamilyOfSlot("TAX_NUM", 2);
    assert NatToString(1) == "1" && NatToString(2) == "2";
    assert "TAX_NUM" + "_" + "1" == "TAX_NUM_1";
    assert "TAX_NUM" + "_" + "2" == "TAX_NUM_2";
  }

  /** The Pareto items of the family view. A NULL DPMO sorts after every
      DPMO (they are never negative), which -1 reproduces. */
  function FamilyItems(fs: seq<FamilyStat>): (items: seq<Item>)
    ensures |items| == |fs|
    ensures forall i :: 0 <= i < |fs| ==> items[i].field == fs[i].family && items[i].total == fs[i].defects
  {
    seq(|fs|, i requires 0 <= i < |fs| =>
      Item(fs[i].family, fs[i].defects, if fs[i].dpmo.Some? then fs[i].dpmo.value else -1.0))
  }

  /** `vw_sigma_analysis_carrier_columns` and
      `vw_sigma_analysis_beneficiary_columns`: the families ranked by
      defects, DPMO and name, each with its running share of all defects. */
  function FamilyPareto(cs: seq<ColumnStat>): (rows: seq<ParetoRow>)
    ensures |rows| == |FamilyScores(cs)|
  {
    ParetoRows(SortDefect(FamilyItems(FamilyScores(cs))))
  }

  /** The family items carry exactly the family defects. */
  lemma {:induction false} FamilyItemsTotal(fs: seq<FamilyStat>)
    ensures SumReal(Totals(FamilyItems(fs))) == Total(FamilyTotals(fs))
    decreases |fs|
  {
    if |fs| > 0 {
      FamilyItemsTotal(fs[..|fs| - 1]);
      assert Totals(FamilyItems(fs))[..|fs| - 1] == Totals(FamilyItems(fs[..|fs| - 1]));
      assert FamilyTotals(fs)[..|fs| - 1] == FamilyTotals(fs[..|fs| - 1]);
    }
  }

  /** Ranking the families keeps the whole defect count. */
  lemma {:induction false} FamilyRankedTotal(cs: seq<ColumnStat>)
    ensures SumReal(Totals(SortDefect(FamilyItems(FamilyScores(cs))))) == Total(FamilyEntries(cs))
  {
    var fs := FamilyScores(cs);
    FamiliesPartitionDefects(cs);
    FamilyItemsTotal(fs);
    SumPermutation(SortDefect(FamilyItems(fs)), FamilyItems(fs));
  }

  /** No ranked family has a negative defect sum when no column has. */
  lemma {:induction false} FamilyRankedNonNegative(cs: seq<ColumnStat>)
    requires forall c :: c in cs ==> c.defects >= 0
    ensures NonNegative(Totals(SortDefect(FamilyItems(FamilyScores(cs)))))
  {
    var es := FamilyEntries(cs);
    var items := FamilyItems(FamilyScores(cs));
    var ranked := SortDefect(items);
    forall e | e in es ensures e.amount >= 0.0 {
      var a :| 0 <= a < |es| && es[a] == e;
    }
    GroupsNonNegative(es);
    forall i | 0 <= i < |ranked| ensures Totals(ranked)[i] >= 0.0 {
      assert ranked[i] in multiset(items);
      var p :| 0 <= p < |items| && items[p] == ranked[i];
    }
  }

  /** Some column defect makes the family defect total positive. */
  lemma {:induction false} FamilyEntriesPositive(cs: seq<ColumnStat>)
    requires forall c :: c in cs ==> c.defects >= 0
    requires exists c :: c in cs && c.defects > 0
    ensures Total(FamilyEntries(cs)) > 0.0
  {
    var es := FamilyEntries(cs);
    forall e | e in es ensures e.amount >= 0.0 {
      var a :| 0 <= a < |es| && es[a] == e;
    }
    var c :| c in cs && c.defects > 0;
    var a :| 0 <= a < |cs| && cs[a] == c;
    assert es[a] in es && es[a].amount > 0.0;
    TotalPositive(es);
  }

  /** With no negative defect count and some defect at all, the family
      view's running share climbs from the worst family and reaches exactly
      1 at the last. */
  lemma {:induction false} FamilyParetoShare(cs: seq<ColumnStat>)
    requires forall c :: c in cs ==> c.defects >= 0
    requires exists c :: c in cs && c.defects > 0
    ensures var v := FamilyPareto(cs);
      forall i, j :: 0 <= i <= j < |v| ==>
        v[i].running.Some? && v[j].running.Some? && 0.0 <= v[i].running.value <= v[j].running.value <= 1.0
    ensures var v := FamilyPareto(cs);
      |v| > 0 && v[|v| - 1].running == Some(1.0)
  {
    var ranked := SortDefect(FamilyItems(FamilyScores(cs)));
    FamilyEntriesPositive(cs);
    FamilyRankedTotal(cs);
    FamilyRankedNonNegative(cs);
    RunningPctIsCumulative(Totals(ranked));
    var v := FamilyPareto(cs);
    var pct := RunningPct(Totals(ranked));
    assert forall i :: 0 <= i < |v| ==> v[i].running == pct[i];
  }

  /** The ranking is a permutation of the families, sorted with a full
      tie-break, so it is the only sorted arrangement; with non-negative
      defects and some defect at all, its running share climbs to 1. */
  lemma {:induction false} FamilyParetoRanked(cs: seq<ColumnStat>)
    ensures multiset(SortDefect(FamilyItems(FamilyScores(cs)))) == multiset(FamilyItems(FamilyScores(cs)))
    ensures forall out :: SortedDefect(out) && multiset(out) == multiset(FamilyItems(FamilyScores(cs))) ==>
      out == SortDefect(FamilyItems(FamilyScores(cs)))
    ensures (forall c :: c in cs ==> c.defects >= 0) && (exists c :: c in cs && c.defects > 0) ==>
      var v := FamilyPareto(cs);
      (forall i, j :: 0 <= i <= j < |v| ==>
        v[i].running.Some? && v[j].running.Some? && 0.0 <= v[i].running.value <= v[j].running.value <= 1.0)
      && |v| > 0 && v[|v| - 1].running == Some(1.0)
  {
    if (forall c :: c in cs ==> c.defects >= 0) && (exists c :: c in cs && c.defects > 0) {
      FamilyParetoShare(cs);
    }
    var items := FamilyItems(FamilyScores(cs));
    forall out | SortedDefect(out) && multiset(out) == multiset(items)
      ensures out == SortDefect(items)
    {
      SortedDefectUnique(out, SortDefect(items));
    }
  }
}
