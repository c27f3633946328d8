/** The money roll-ups built on the difference views: the per-metric field
    table (`audit_beneficiary_financial_fields`,
    `audit_claim_financial_fields`) and the Pareto impact views
    (`vw_beneficiary_financial_error_impact`,
    `vw_claim_financial_error_impact`), which fold metrics into field
    families and rank them by variance. */
module Impact {
  import opened Sql
  import opened Text
  import opened Table
  import opened Schema
  import opened Group
  import opened Pareto
  import opened Financial

  const MetricPrefix: string := "abs_delta_"

  /** The metric a money field is reported under. */
  function MetricName(f: string): (m: string)
    ensures StartsWith(m, MetricPrefix) && m[|MetricPrefix|..] == f
  {
    MetricPrefix + f
  }

  /** `regexp_replace(metric_name, '^abs_delta_', '')`. */
  function StripMetricPrefix(m: string): (s: string)
    ensures StartsWith(m, MetricPrefix) ==> MetricPrefix + s == m
    ensures !StartsWith(m, MetricPrefix) ==> s == m
  {
    if StartsWith(m, MetricPrefix) then m[|MetricPrefix|..] else m
  }

  /** `FIELD_BASE`: the prefix stripped, then the slot suffix `_<digits>`. */
  function MoneyFamily(m: string): string
  {
    Family(StripMetricPrefix(m))
  }

  lemma {:induction false} MoneyFamilyOfName(f: string)
    ensures MoneyFamily(MetricName(f)) == Family(f)
  {
    assert StripMetricPrefix(MetricName(f)) == f;
  }

  /** Every slot of a carrier money column folds back into its column. */
  lemma {:induction false} MoneyFamilyOfSlot(base: string, k: nat)
    ensures MoneyFamily(MetricName(base + "_" + NatToString(k))) == base
  {
    MoneyFamilyOfName(base + "_" + NatToString(k));
    FamilyOfSlot(base, k);
  }

  /** A beneficiary money column ends in a letter, so it is a family of its
      own. */
  lemma {:induction false} MoneyFamilyOfLetterEnding(f: string)
    requires |f| > 0 && !IsDigit(f[|f| - 1])
    ensures MoneyFamily(MetricName(f)) == f
  {
    MoneyFamilyOfName(f);
    FamilyOfLetterEnding(f);
  }

  /** `round(x, 2)`, half away from zero. */
  function Round2(x: real): (r: real)
    ensures -0.005 <= r - x <= 0.005
    ensures x >= 0.0 ==> r >= 0.0
  {
    if x >= 0.0 then (x * 100.0 + 0.5).Floor as real / 100.0
    else -((-x * 100.0 + 0.5).Floor as real / 100.0)
  }

  /** One row of the field table: a metric and its rounded total. */
  datatype FieldRow = FieldRow(metric: string, total: Option<real>)

  predicate Shaped(view: seq<DiffRow>, fields: seq<string>)
  {
    forall i :: 0 <= i < |view| ==> |view[i].sums| == |fields|
  }

  /** `CROSS JOIN UNNEST(metrics) GROUP BY metric_name` with
      `round(sum(metric_value), 2)`: one row per metric when the view has
      rows, none when it is empty (there is nothing to unnest). */
  function FieldTable(view: seq<DiffRow>, fields: seq<string>): (t: seq<FieldRow>)
    requires Shaped(view, fields)
    ensures |view| == 0 ==> t == []
    ensures |view| > 0 ==> |t| == |fields|
    ensures forall j :: 0 <= j < |t| ==> t[j].metric == MetricName(fields[j])
  {
    if |view| == 0 then []
    else
      seq(|fields|, j requires 0 <= j < |fields| =>
        var s := MetricTotal(view, j);
        FieldRow(MetricName(fields[j]), if s.Some? then Some(Round2(s.value)) else None))
  }

  lemma {:induction false} DifferenceViewShaped(rows: seq<FinRow>, fields: seq<string>, w: nat)
    ensures Shaped(DifferenceView(rows, fields, w), fields)
  {
    var view := DifferenceView(rows, fields, w);
    forall i | 0 <= i < |view| ensures |view[i].sums| == |fields| {
      assert view[i] in view;
    }
  }

  /** A reported group holds a row present on both sides, so every one of
      its sums is present, not only the positive one. */
  lemma {:induction false} ReportedSumsPresent(rows: seq<FinRow>, fields: seq<string>, w: nat, g: Key, j: nat)
    requires Reported(GroupSums(rows, fields, w, g))
    requires j < |fields|
    ensures GroupSums(rows, fields, w, g)[j].Some?
  {
    var sums := GroupSums(rows, fields, w, g);
    var m := Members(rows, w, g);
    var j0 :| 0 <= j0 < |sums| && sums[j0].Some?;
    assert FieldTotal(m, fields, j0).Some?;
    var i :| 0 <= i < |m| && m[i].src.Some? && m[i].target.Some?;
    assert FieldTotal(m, fields, j).Some?;
  }

  /** The field table of a difference view has a present total for every
      metric: the view never holds a group made of one-sided rows only. */
  lemma {:induction false} FieldTablePresent(rows: seq<FinRow>, fields: seq<string>, w: nat)
    ensures Shaped(DifferenceView(rows, fields, w), fields)
    ensures forall r :: r in FieldTable(DifferenceView(rows, fields, w), fields) ==> r.total.Some?
  {
    DifferenceViewShaped(rows, fields, w);
    var view := DifferenceView(rows, fields, w);
    if |view| > 0 {
      forall j | 0 <= j < |fields| ensures MetricTotal(view, j).Some? {
        ViewMetricPresent(rows, fields, w, j);
      }
      FieldTableSome(view, fields);
    }
  }

  /** A metric's total over a non-empty difference view is present. */
  lemma {:induction false} ViewMetricPresent(rows: seq<FinRow>, fields: seq<string>, w: nat, j: nat)
    requires |DifferenceView(rows, fields, w)| > 0 && j < |fields|
    ensures Shaped(DifferenceView(rows, fields, w), fields)
    ensures MetricTotal(DifferenceView(rows, fields, w), j).Some?
  {
    DifferenceViewShaped(rows, fields, w);
    var view := DifferenceView(rows, fields, w);
    assert view[0] in view;
    ReportedSumsPresent(rows, fields, w, view[0].key, j);
    assert MetricColumn(view, j)[0].Some?;
  }

  lemma {:induction false} FieldTableSome(view: seq<DiffRow>, fields: seq<string>)
    requires Shaped(view, fields)
    requires forall j :: 0 <= j < |fields| ==> MetricTotal(view, j).Some?
    ensures forall r :: r in FieldTable(view, fields) ==> r.total.Some?
  {
    var t := FieldTable(view, fields);
    forall r | r in t ensures r.total.Some? {
      var j :| 0 <= j < |t| && t[j] == r;
    }
  }

  /** Each metric of the field table is the whole table's absolute
      difference on that field, up to the rounding to cents; and an empty
      field table means no field differs anywhere. */
  lemma {:induction false} FieldTableFaithful(rows: seq<FinRow>, fields: seq<string>, w: nat, j: nat)
    requires j < |fields|
    ensures Shaped(DifferenceView(rows, fields, w), fields)
    ensures var t := FieldTable(DifferenceView(rows, fields, w), fields);
      if |t| == 0 then Coalesce(FieldTotal(rows, fields, j), 0.0) == 0.0
      else t[j].total.Some? && -0.005 <= t[j].total.value - Coalesce(FieldTotal(rows, fields, j), 0.0) <= 0.005
  {
    FieldTablePresent(rows, fields, w);
    DifferenceViewConserves(rows, fields, w, j);
    var view := DifferenceView(rows, fields, w);
    var t := FieldTable(view, fields);
    if |view| > 0 {
      assert t[j] in t;
    }
  }

  /** `FIELD_BASE` and the metric's total, as grouping entries; a NULL
      total is read as 0 (a field table of a difference view has none, by
      FieldTablePresent). */
  function Rekey(t: seq<FieldRow>): (es: seq<Entry<string>>)
    ensures |es| == |t|
    ensures forall i :: 0 <= i < |t| ==> es[i] == Entry(MoneyFamily(t[i].metric), Coalesce(t[i].total, 0.0))
  {
    seq(|t|, i requires 0 <= i < |t| => Entry(MoneyFamily(t[i].metric), Coalesce(t[i].total, 0.0)))
  }

  /** `SELECT FIELD_BASE, sum(total_abs_delta) ... GROUP BY FIELD_BASE`. */
  function FamilyVariance(t: seq<FieldRow>): seq<Entry<string>>
  {
    GroupBy(Rekey(t))
  }

  function ImpactItems(fv: seq<Entry<string>>): (xs: seq<Item>)
    ensures |xs| == |fv|
    ensures forall i :: 0 <= i < |fv| ==> xs[i] == Item(fv[i].key, fv[i].amount, 0.0)
  {
    seq(|fv|, i requires 0 <= i < |fv| => Item(fv[i].key, fv[i].amount, 0.0))
  }

  /** The impact view's rows in the order its window `ORDER BY
      FINANCIAL_VARIANCE DESC` picks: `ranked` is any arrangement of the
      families sorted by variance DESC (the SQL has no tie-break, see
      VarianceTieIsAmbiguous), each row with its running share of the
      total along that order. */
  function ImpactWindow(t: seq<FieldRow>, ranked: seq<Item>): (view: seq<ParetoRow>)
    requires VarianceRanking(ImpactItems(FamilyVariance(t)), ranked)
    ensures |view| == |FamilyVariance(t)|
    ensures forall i, j :: 0 <= i < j < |view| ==> view[i].total >= view[j].total
  {
    assert |ranked| == |multiset(ranked)| == |ImpactItems(FamilyVariance(t))|;
    ParetoRows(ranked)
  }

  lemma {:induction false} ItemsTotal(fv: seq<Entry<string>>)
    ensures SumReal(Totals(ImpactItems(fv))) == Total(fv)
    decreases |fv|
  {
    if |fv| > 0 {
      ItemsTotal(fv[..|fv| - 1]);
      assert Totals(ImpactItems(fv))[..|fv| - 1] == Totals(ImpactItems(fv[..|fv| - 1]));
    }
  }

  /** The impact view loses and invents no money: its variances add up to
      the field table's totals. */
  lemma {:induction false} ImpactConserves(t: seq<FieldRow>, ranked: seq<Item>)
    requires VarianceRanking(ImpactItems(FamilyVariance(t)), ranked)
    ensures SumReal(Totals(ranked)) == Total(Rekey(t))
  {
    SumPermutation(ranked, ImpactItems(FamilyVariance(t)));
    ItemsTotal(FamilyVariance(t));
    GroupByConserves(Rekey(t));
  }

  /** Every ranked item is one of the grouped families with its sum. */
  lemma {:induction false} RankedFromGroups(fv: seq<Entry<string>>, ranked: seq<Item>, i: nat)
    requires multiset(ranked) == multiset(ImpactItems(fv))
    requires i < |ranked|
    ensures exists p :: 0 <= p < |fv| && ranked[i] == Item(fv[p].key, fv[p].amount, 0.0)
  {
    assert ranked[i] in multiset(ImpactItems(fv));
    var p :| 0 <= p < |fv| && ImpactItems(fv)[p] == ranked[i];
  }

  /** Every ranked family carries the sum of the metrics folded into it. */
  lemma {:induction false} ImpactVariance(t: seq<FieldRow>, ranked: seq<Item>)
    requires VarianceRanking(ImpactItems(FamilyVariance(t)), ranked)
    ensures forall i :: 0 <= i < |ranked| ==>
      ImpactWindow(t, ranked)[i].total == Total(Filter(Rekey(t), ImpactWindow(t, ranked)[i].field))
  {
    var fv := FamilyVariance(t);
    GroupByKeys(Rekey(t));
    forall i | 0 <= i < |ranked| ensures ranked[i].total == Total(Filter(Rekey(t), ranked[i].field)) {
      RankedFromGroups(fv, ranked, i);
    }
  }

  /** A rearrangement of the grouped items still holds every group. */
  lemma {:induction false} RankedCovers(es: seq<Entry<string>>, fv: seq<Entry<string>>, ranked: seq<Item>)
    requires forall e :: e in es ==> exists p :: 0 <= p < |fv| && fv[p].key == e.key
    requires multiset(ranked) == multiset(ImpactItems(fv))
    ensures forall e :: e in es ==> exists i :: 0 <= i < |ranked| && ranked[i].field == e.key
  {
    forall e | e in es ensures exists i :: 0 <= i < |ranked| && ranked[i].field == e.key {
      var p :| 0 <= p < |fv| && fv[p].key == e.key;
      assert ImpactItems(fv)[p] in multiset(ranked);
      var i :| 0 <= i < |ranked| && ranked[i] == ImpactItems(fv)[p];
    }
  }

  /** Every metric of the table reaches the view through its family. */
  lemma {:induction false} ImpactCovers(t: seq<FieldRow>, ranked: seq<Item>)
    requires VarianceRanking(ImpactItems(FamilyVariance(t)), ranked)
    ensures forall r :: r in t ==>
      exists i :: 0 <= i < |ranked| && ImpactWindow(t, ranked)[i].field == MoneyFamily(r.metric)
  {
    var es := Rekey(t);
    FamiliesCovered(t);
    RankedCovers(es, FamilyVariance(t), ranked);
    var view := ImpactWindow(t, ranked);
    assert forall i :: 0 <= i < |ranked| ==> view[i].field == ranked[i].field;
    forall r | r in t ensures exists i :: 0 <= i < |ranked| && view[i].field == MoneyFamily(r.metric) {
      var a :| 0 <= a < |t| && t[a] == r;
      assert es[a] in es;
      var i :| 0 <= i < |ranked| && ranked[i].field == es[a].key;
      assert view[i].field == MoneyFamily(r.metric);
    }
  }

  lemma {:induction false} FamiliesCovered(t: seq<FieldRow>)
    ensures forall e :: e in Rekey(t) ==> exists p :: 0 <= p < |FamilyVariance(t)| && FamilyVariance(t)[p].key == e.key
  {
    var es := Rekey(t);
    GroupByKeys(es);
    assert FamilyVariance(t) == GroupBy(es);
  }

  /** A rearrangement of groups with distinct keys has distinct fields. */
  lemma {:induction false} RankedDistinct(fv: seq<Entry<string>>, ranked: seq<Item>)
    requires forall i, j :: 0 <= i < j < |fv| ==> fv[i].key != fv[j].key
    requires multiset(ranked) == multiset(ImpactItems(fv))
    ensures forall i, j :: 0 <= i < j < |ranked| ==> ranked[i].field != ranked[j].field
  {
    forall i, j | 0 <= i < j < |ranked| ensures ranked[i].field != ranked[j].field {
      if ranked[i].field == ranked[j].field {
        assert ranked[i] in multiset(ImpactItems(fv)) && ranked[j] in multiset(ImpactItems(fv));
        SameFamilySameItem(fv, ranked[i], ranked[j]);
        TwiceInSeq(ranked, i, j);
        var p :| 0 <= p < |fv| && ranked[i] == ImpactItems(fv)[p];
        ItemsDistinct(fv, p);
      }
    }
  }

  /** Each family appears once in the view. */
  lemma {:induction false} ImpactFamiliesDistinct(t: seq<FieldRow>, ranked: seq<Item>)
    requires VarianceRanking(ImpactItems(FamilyVariance(t)), ranked)
    ensures forall i, j :: 0 <= i < j < |ranked| ==> ImpactWindow(t, ranked)[i].field != ImpactWindow(t, ranked)[j].field
  {
    GroupByKeys(Rekey(t));
    RankedDistinct(FamilyVariance(t), ranked);
  }

  lemma {:induction false} MetricTotalNonNegative(rows: seq<FinRow>, fields: seq<string>, w: nat, j: nat)
    requires j < |fields|
    ensures Shaped(DifferenceView(rows, fields, w), fields)
    ensures var s := MetricTotal(DifferenceView(rows, fields, w), j); s.Some? ==> s.value >= 0.0
  {
    DifferenceViewShaped(rows, fields, w);
    var view := DifferenceView(rows, fields, w);
    var c := MetricColumn(view, j);
    forall i | 0 <= i < |view| && c[i].Some? ensures c[i].value >= 0.0 {
      assert view[i] in view;
      FieldColumnNonNegative(Members(rows, w, view[i].key), fields, j);
    }
    SumNonNegative(c);
  }

  /** No field table total is negative: each is a rounded sum of
      absolute differences. */
  lemma {:induction false} FieldTableNonNegative(rows: seq<FinRow>, fields: seq<string>, w: nat)
    ensures Shaped(DifferenceView(rows, fields, w), fields)
    ensures forall r :: r in FieldTable(DifferenceView(rows, fields, w), fields) ==> r.total.Some? && r.total.value >= 0.0
  {
    FieldTablePresent(rows, fields, w);
    var view := DifferenceView(rows, fields, w);
    var t := FieldTable(view, fields);
    forall r | r in t ensures r.total.Some? && r.total.value >= 0.0 {
      var j :| 0 <= j < |t| && t[j] == r;
      MetricTotalNonNegative(rows, fields, w, j);
    }
  }

  predicate TableNonNegative(t: seq<FieldRow>)
  {
    forall i :: 0 <= i < |t| ==> Coalesce(t[i].total, 0.0) >= 0.0
  }

  lemma {:induction false} RankedNonNegative(t: seq<FieldRow>, ranked: seq<Item>)
    requires VarianceRanking(ImpactItems(FamilyVariance(t)), ranked)
    requires TableNonNegative(t)
    ensures NonNegative(Totals(ranked))
  {
    var es := Rekey(t);
    ImpactVariance(t, ranked);
    forall i | 0 <= i < |ranked| ensures Totals(ranked)[i] >= 0.0 {
      assert ImpactWindow(t, ranked)[i].total == ranked[i].total;
      forall e | e in Filter(es, ranked[i].field) ensures e.amount >= 0.0 {
        var a :| 0 <= a < |es| && es[a] == e;
      }
      TotalNonNegative(Filter(es, ranked[i].field));
    }
  }

  /** With no negative metric and some money at stake, the running share
      climbs along the window's order from the largest family and reaches
      exactly 1 at the last. The listed order may differ among ties: see
      ImpactListedShares. */
  lemma {:induction false} ImpactRunningShare(t: seq<FieldRow>, ranked: seq<Item>)
    requires VarianceRanking(ImpactItems(FamilyVariance(t)), ranked)
    requires TableNonNegative(t) && Total(Rekey(t)) > 0.0
    ensures var v := ImpactWindow(t, ranked);
      forall i, j :: 0 <= i <= j < |v| ==>
        v[i].running.Some? && v[j].running.Some? && 0.0 <= v[i].running.value <= v[j].running.value <= 1.0
    ensures var v := ImpactWindow(t, ranked);
      |v| > 0 && v[|v| - 1].running == Some(1.0)
  {
    ImpactConserves(t, ranked);
    RankedNonNegative(t, ranked);
    RunningPctIsCumulative(Totals(ranked));
    var v := ImpactWindow(t, ranked);
    var pct := RunningPct(Totals(ranked));
    assert forall i :: 0 <= i < |v| ==> v[i].running == pct[i];
  }

  /** What the impact view may list: the window's rows, rearranged by the
      view's final `ORDER BY FINANCIAL_VARIANCE DESC`, a second sort that
      may list tied families in another order than the window took. */
  predicate ImpactView(t: seq<FieldRow>, window: seq<Item>, out: seq<ParetoRow>)
  {
    VarianceRanking(ImpactItems(FamilyVariance(t)), window)
    && ListedRanking(ImpactWindow(t, window), out)
  }

  /** Along the listed order, with no negative metric and some money at
      stake: every share lies in [0, 1], a family of larger variance never
      shows a larger share than one of smaller variance, and some family
      shows exactly 1. Tied families may show falling shares
      (ListedTieFalls). */
  lemma {:induction false} ImpactListedShares(t: seq<FieldRow>, window: seq<Item>, out: seq<ParetoRow>)
    requires ImpactView(t, window, out)
    requires TableNonNegative(t) && Total(Rekey(t)) > 0.0
    ensures |out| == |FamilyVariance(t)|
    ensures forall i :: 0 <= i < |out| ==>
      out[i].running.Some? && 0.0 <= out[i].running.value <= 1.0
    ensures forall i, j :: 0 <= i < |out| && 0 <= j < |out| && out[i].total > out[j].total ==>
      out[i].running.Some? && out[j].running.Some? && out[i].running.value <= out[j].running.value
    ensures exists i :: 0 <= i < |out| && out[i].running == Some(1.0)
  {
    ImpactConserves(t, window);
    RankedNonNegative(t, window);
    assert |out| == |multiset(out)| == |ImpactWindow(t, window)|;
    ListedShares(window, out);
  }

  /** Every metric reaches the listed view through its family, and each
      family is listed once. */
  lemma {:induction false} ImpactListedFamilies(t: seq<FieldRow>, window: seq<Item>, out: seq<ParetoRow>)
    requires ImpactView(t, window, out)
    ensures forall r :: r in t ==>
      exists i :: 0 <= i < |out| && out[i].field == MoneyFamily(r.metric)
    ensures forall i, j :: 0 <= i < j < |out| ==> out[i].field != out[j].field
  {
    var rows := ImpactWindow(t, window);
    ImpactCovers(t, window);
    ImpactFamiliesDistinct(t, window);
    forall r | r in t ensures exists i :: 0 <= i < |out| && out[i].field == MoneyFamily(r.metric) {
      var p :| 0 <= p < |window| && rows[p].field == MoneyFamily(r.metric);
      assert rows[p] in multiset(out);
      var i :| 0 <= i < |out| && out[i] == rows[p];
    }
    forall i, j | 0 <= i < j < |out| ensures out[i].field != out[j].field {
      ListedOnce(rows, out, i, j);
    }
  }

  /** Two positions of a rearrangement of rows with distinct fields hold
      distinct fields. */
  lemma {:induction false} ListedOnce(rows: seq<ParetoRow>, out: seq<ParetoRow>, i: nat, j: nat)
    requires forall a, b :: 0 <= a < b < |rows| ==> rows[a].field != rows[b].field
    requires multiset(out) == multiset(rows) && i < j < |out|
    ensures out[i].field != out[j].field
  {
    var p := ListedFrom(rows, out, i);
    var q := ListedFrom(rows, out, j);
    if p == q {
      TwiceInSeq(out, i, j);
      OnceInDistinct(rows, p);
      assert false;
    } else if p < q {
      assert rows[p].field != rows[q].field;
    } else {
      assert rows[q].field != rows[p].field;
    }
  }

  /** In a list with pairwise distinct fields each row occurs once. */
  lemma {:induction false} OnceInDistinct(rows: seq<ParetoRow>, p: nat)
    requires forall a, b :: 0 <= a < b < |rows| ==> rows[a].field != rows[b].field
    requires p < |rows|
    ensures multiset(rows)[rows[p]] == 1
  {
    var x := rows[p];
    assert rows == rows[..p] + [x] + rows[p + 1..];
    forall a | 0 <= a < |rows| && a != p ensures rows[a] != x {
      if a < p {
        assert rows[a].field != rows[p].field;
      } else {
        assert rows[p].field != rows[a].field;
      }
    }
    assert x !in rows[..p];
    assert x !in rows[p + 1..];
    assert multiset(rows) == multiset(rows[..p]) + multiset{x} + multiset(rows[p + 1..]);
  }

  /** Items of distinct groups with the same family are the same item. */
  lemma {:induction false} SameFamilySameItem(fv: seq<Entry<string>>, x: Item, y: Item)
    requires forall i, j :: 0 <= i < j < |fv| ==> fv[i].key != fv[j].key
    requires x in ImpactItems(fv) && y in ImpactItems(fv) && x.field == y.field
    ensures x == y
  {
    var items := ImpactItems(fv);
    var p :| 0 <= p < |items| && items[p] == x;
    var q :| 0 <= q < |items| && items[q] == y;
    assert fv[p].key == fv[q].key;
    assert p == q;
  }

  lemma {:induction false} TwiceInSeq<T>(s: seq<T>, i: nat, j: nat)
    requires i < j < |s| && s[i] == s[j]
    ensures multiset(s)[s[i]] >= 2
  {
    assert s == s[..j] + [s[j]] + s[j + 1..];
    assert s[..j] == s[..i] + [s[i]] + s[i + 1..j];
    assert multiset(s) == multiset(s[..i]) + multiset{s[i]} + multiset(s[i + 1..j]) + multiset{s[j]} + multiset(s[j + 1..]);
  }

  /** Distinct groups give an item that occurs once. */
  lemma {:induction false} ItemsDistinct(fv: seq<Entry<string>>, p: nat)
    requires forall i, j :: 0 <= i < j < |fv| ==> fv[i].key != fv[j].key
    requires p < |fv|
    ensures multiset(ImpactItems(fv))[ImpactItems(fv)[p]] == 1
  {
    var items := ImpactItems(fv);
    var x := items[p];
    assert items == items[..p] + [x] + items[p + 1..];
    forall i | 0 <= i < |items| && i != p ensures items[i] != x {
      if i < p {
        assert fv[i].key != fv[p].key;
      } else {
        assert fv[p].key != fv[i].key;
      }
    }
    assert x !in items[..p];
    assert x !in items[p + 1..];
    assert multiset(items) == multiset(items[..p]) + multiset{x} + multiset(items[p + 1..]);
  }
}
