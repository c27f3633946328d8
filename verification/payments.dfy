/** The payment views `view_calc_src_payments` and `view_calc_new_payments`:
    each carrier claim is unpivoted into its thirteen line items, each line
    is priced by the business rule, and the three computed amounts are
    summed per beneficiary and claim year. The same definition is applied
    to both snapshots, so it is modelled once, as a function of the table. */
module Payments {
  import opened Sql
  import opened Text
  import opened Table
  import opened Rules
  import opened Group
  import opened Beneficiaries

  /** The number of line slots on a carrier claim. */
  const LineSlots := 13

  function SlotName(base: string, i: nat): string
  {
    base + "_" + NatToString(i)
  }

  /** One row of `normalized_claims`. */
  datatype Line = Line(
    bene: Cell, fromDate: Cell, lineNum: nat,
    payment: Cell, deductible: Cell, coinsurance: Cell, primaryPayer: Cell, allowed: Cell, indicator: Cell)

  /** The `SELECT` for slot `i` applied to one claim row. */
  function LineOf(r: Row, i: nat): (l: Line)
    ensures l.lineNum == i
  {
    Line(Get(r, "DESYNPUF_ID"), Get(r, "CLM_FROM_DT"), i,
      Get(r, SlotName("LINE_NCH_PMT_AMT", i)), Get(r, SlotName("LINE_BENE_PTB_DDCTBL_AMT", i)),
      Get(r, SlotName("LINE_COINSRNC_AMT", i)), Get(r, SlotName("LINE_BENE_PRMRY_PYR_PD_AMT", i)),
      Get(r, SlotName("LINE_ALOWD_CHRG_AMT", i)), Get(r, SlotName("LINE_PRCSG_IND_CD", i)))
  }

  function SlotSelect(t: seq<Row>, i: nat): (ls: seq<Line>)
    ensures |ls| == |t|
    ensures forall j :: 0 <= j < |t| ==> ls[j] == LineOf(t[j], i)
  {
    seq(|t|, j requires 0 <= j < |t| => LineOf(t[j], i))
  }

  /** The selects for slots 1 to `n`, combined by `UNION ALL`. */
  function UnionAll(t: seq<Row>, n: nat): (ls: seq<Line>)
    ensures forall l :: l in ls ==> 1 <= l.lineNum <= n
  {
    if n == 0 then [] else UnionAll(t, n - 1) + SlotSelect(t, n)
  }

  lemma {:induction false} UnionAllLength(t: seq<Row>, n: nat)
    ensures |UnionAll(t, n)| == n * |t|
  {
    if n > 0 {
      UnionAllLength(t, n - 1);
      assert |UnionAll(t, n)| == (n - 1) * |t| + |t|;
    }
  }

  /** `normalized_claims`. */
  function Unpivot(t: seq<Row>): (ls: seq<Line>)
    ensures |ls| == LineSlots * |t|
  {
    UnionAllLength(t, LineSlots);
    UnionAll(t, LineSlots)
  }

  /** The lines with a given `LINE_NUM`, in order. */
  function Numbered(ls: seq<Line>, i: nat): (out: seq<Line>)
    ensures forall l :: l in out <==> l in ls && l.lineNum == i
  {
    if |ls| == 0 then []
    else
      var init := ls[..|ls| - 1];
      var last := ls[|ls| - 1];
      assert forall l :: l in ls <==> l in init || l == last by {
        assert ls == init + [last];
      }
      Numbered(init, i) + (if last.lineNum == i then [last] else [])
  }

  lemma {:induction false} NumberedAppend(a: seq<Line>, b: seq<Line>, i: nat)
    ensures Numbered(a + b, i) == Numbered(a, i) + Numbered(b, i)
    decreases |b|
  {
    if |b| > 0 {
      var bi := b[..|b| - 1];
      NumberedAppend(a, bi, i);
      assert (a + b)[..|a + b| - 1] == a + bi;
    } else {
      assert a + b == a;
    }
  }

  lemma {:induction false} NumberedSlot(t: seq<Row>, n: nat, i: nat)
    ensures Numbered(SlotSelect(t, n), i) == if i == n then SlotSelect(t, n) else []
    decreases |t|
  {
    if |t| > 0 {
      var init := t[..|t| - 1];
      NumberedSlot(init, n, i);
      assert SlotSelect(t, n)[..|t| - 1] == SlotSelect(init, n);
    }
  }

  /** Every claim row yields exactly one line per `LINE_NUM` from 1 to 13,
      carrying that slot's columns: the lines numbered `i` are the slot-`i`
      select over the claims, in claim order, and no other number occurs. */
  lemma {:induction false} UnionAllByNumber(t: seq<Row>, n: nat, i: nat)
    ensures 1 <= i <= n ==> Numbered(UnionAll(t, n), i) == SlotSelect(t, i)
    ensures !(1 <= i <= n) ==> Numbered(UnionAll(t, n), i) == []
  {
    if n > 0 {
      UnionAllByNumber(t, n - 1, i);
      var fromPrefix := Numbered(UnionAll(t, n - 1), i);
      assert fromPrefix == if 1 <= i < n then SlotSelect(t, i) else [];
      NumberedSlot(t, n, i);
      var fromBlock := Numbered(SlotSelect(t, n), i);
      assert fromBlock == if i == n then SlotSelect(t, n) else [];
      NumberedAppend(UnionAll(t, n - 1), SlotSelect(t, n), i);
      assert Numbered(UnionAll(t, n), i) == fromPrefix + fromBlock;
    }
  }

  lemma {:induction false} UnpivotByNumber(t: seq<Row>, i: nat)
    ensures Numbered(Unpivot(t), i) == if 1 <= i <= LineSlots then SlotSelect(t, i) else []
  {
    UnionAllByNumber(t, LineSlots, i);
  }

  /** The outcome of `CAST(... AS INTEGER)`: NULL, a value, or a conversion
      error that fails the whole query. */
  datatype YearCast = NullYear | YearValue(y: int) | CastFailed

  /** The blanks DuckDB skips around a number it casts: tab, line feed,
      vertical tab, form feed, carriage return and space. */
  predicate CastBlank(c: char)
  {
    c == ' ' || '\t' <= c <= '\r'
  }

  /** The text with its leading and trailing blanks removed. */
  function TrimBlanks(t: string): (r: string)
    ensures |r| <= |t|
    ensures |r| == 0 || (!CastBlank(r[0]) && !CastBlank(r[|r| - 1]))
    ensures forall i :: 0 <= i < |t| && !CastBlank(t[i]) ==> t[i] in r
    decreases |t|
  {
    if |t| > 0 && CastBlank(t[0]) then
      var r := TrimBlanks(t[1..]);
      assert forall i :: 1 <= i < |t| ==> t[i] == t[1..][i - 1];
      r
    else if |t| > 0 && CastBlank(t[|t| - 1]) then
      var r := TrimBlanks(t[..|t| - 1]);
      assert forall i :: 0 <= i < |t| - 1 ==> t[i] == t[..|t| - 1][i];
      r
    else t
  }

  /** Blanks on either side of a text that neither starts nor ends with a
      blank are exactly what trimming removes. */
  lemma {:induction false} TrimPadded(a: string, m: string, b: string)
    requires forall i :: 0 <= i < |a| ==> CastBlank(a[i])
    requires forall i :: 0 <= i < |b| ==> CastBlank(b[i])
    requires |m| == 0 || (!CastBlank(m[0]) && !CastBlank(m[|m| - 1]))
    ensures TrimBlanks(a + m + b) == m
    decreases |a| + |b|
  {
    var t := a + m + b;
    if |a| > 0 {
      assert t[1..] == a[1..] + m + b;
      TrimPadded(a[1..], m, b);
    } else if |m| > 0 {
      assert t[0] == m[0];
      if |b| > 0 {
        assert t[..|t| - 1] == a + m + b[..|b| - 1];
        TrimPadded(a, m, b[..|b| - 1]);
      } else {
        assert t == m;
      }
    } else if |b| > 0 {
      assert t == b;
      assert t[1..] == a + m + b[1..];
      TrimPadded(a, m, b[1..]);
    } else {
      assert t == [];
    }
  }

  /** A run of digits has no blank to trim and needs no sign. */
  lemma {:induction false} DigitsNeedNoTrim(t: string)
    ensures |t| > 0 && AllDigits(t) ==> TrimBlanks(t) == t && SignedDigits(t)
  {
    if |t| > 0 && AllDigits(t) {
      TrimPadded([], t, []);
      assert [] + t + [] == t;
    }
  }

  /** An optionally signed, non-empty run of digits. */
  predicate SignedDigits(t: string)
  {
    if |t| > 0 && (t[0] == '+' || t[0] == '-') then |t| > 1 && AllDigits(t[1..])
    else |t| > 0 && AllDigits(t)
  }

  /** A character that is neither a digit nor a sign rules out a signed
      run of digits. */
  lemma {:induction false} ForeignCharNotSigned(t: string, k: nat)
    requires k < |t| && !IsDigit(t[k]) && t[k] != '+' && t[k] != '-'
    ensures !SignedDigits(t)
  {
    if t[0] == '+' || t[0] == '-' {
      assert k > 0 && t[1..][k - 1] == t[k];
    } else {
      assert !IsDigit(t[k]);
    }
  }

  function SignedValue(t: string): int
    requires SignedDigits(t)
  {
    if t[0] == '-' then -(ParseNat(t[1..]) as int)
    else if t[0] == '+' then ParseNat(t[1..])
    else ParseNat(t)
  }

  /** At most four characters of signed digits lie between -999 and 9999. */
  lemma {:induction false} SignedValueBound(t: string)
    requires SignedDigits(t) && |t| <= 4
    ensures -999 <= SignedValue(t) <= 9999
  {
    if t[0] == '-' || t[0] == '+' {
      ParseNatBound(t[1..]);
      Pow10Monotone(|t[1..]|, 3);
      assert Pow10(3) == 1000 by { assert Pow10(1) == 10; assert Pow10(2) == 100; }
    } else {
      ParseNatBound(t);
      Pow10Monotone(|t|, 4);
      assert Pow10(4) == 10000 by { assert Pow10(1) == 10; assert Pow10(2) == 100; assert Pow10(3) == 1000; }
    }
  }

  /** `CAST(SUBSTR(CAST(CLM_FROM_DT AS VARCHAR), 1, 4) AS INTEGER)`: DuckDB
      skips surrounding blanks and reads an optionally signed run of digits;
      anything else is a conversion error. A non-text value cannot occur in
      the VARCHAR column and reads as NULL. */
  function CastYear(c: Cell): (y: YearCast)
    ensures y.NullYear? <==> !(c.Some? && c.value.Str?)
    ensures c.Some? && c.value.Str? && |c.value.s| >= 4 && AllDigits(c.value.s[..4]) ==>
      y == YearValue(ParseNat(c.value.s[..4]))
    ensures y.YearValue? ==> -999 <= y.y <= 9999
    ensures y.CastFailed? ==> |Left(c.value.s, 4)| == 0 || !AllDigits(Left(c.value.s, 4))
  {
    if c.Some? && c.value.Str? then
      var p := TrimBlanks(Left(c.value.s, 4));
      DigitsNeedNoTrim(Left(c.value.s, 4));
      if SignedDigits(p) then
        SignedValueBound(p);
        YearValue(SignedValue(p))
      else
        CastFailed
    else NullYear
  }

  /** A character among the first four that is neither a digit, a blank nor
      a sign makes the cast fail. */
  lemma {:induction false} CastFailsOnForeignChar(s: string, i: nat)
    requires i < |s| && i < 4
    requires !IsDigit(s[i]) && !CastBlank(s[i]) && s[i] != '+' && s[i] != '-'
    ensures CastYear(Some(Str(s))) == CastFailed
  {
    var l := Left(s, 4);
    assert l[i] == s[i];
    var p := TrimBlanks(l);
    assert s[i] in p;
    var k :| 0 <= k < |p| && p[k] == s[i];
    ForeignCharNotSigned(p, k);
  }

  /** A year written with blanks around it, with or without a sign, is read
      as its value. */
  lemma {:induction false} CastReadsPaddedYear(a: string, m: string, rest: string)
    requires forall i :: 0 <= i < |a| ==> CastBlank(a[i])
    requires SignedDigits(m) && |a| + |m| <= 4
    requires forall i :: 0 <= i < |rest| && |a| + |m| + i < 4 ==> CastBlank(rest[i])
    ensures CastYear(Some(Str(a + m + rest))) == YearValue(SignedValue(m))
  {
    var s := a + m + rest;
    var b := Left(rest, 4 - |a| - |m|);
    assert Left(s, 4) == a + m + b;
    assert forall i :: 0 <= i < |b| ==> b[i] == rest[i];
    assert !CastBlank(m[0]) && !CastBlank(m[|m| - 1]) by {
      if m[0] == '+' || m[0] == '-' {
        assert m[|m| - 1] == m[1..][|m| - 2];
      }
    }
    TrimPadded(a, m, b);
  }

  /** A claim date that does not start with a digit, such as the text
      `'nan'`, cannot be cast. */
  lemma {:induction false} NanDateFailsCast()
    ensures CastYear(Some(Str("nan"))) == CastFailed
  {
    CastFailsOnForeignChar("nan", 0);
  }

  datatype YearKey = YearKey(bene: Cell, year: Option<int>)

  /** One row of `calculated_lines`. */
  datatype PricedLine = PricedLine(key: YearKey, medicare: Number, beneficiary: Number, primaryPayer: Number)

  function LineValid(l: Line): bool
  {
    IsValid(l.indicator, l.allowed)
  }

  /** The three `CASE` expressions of `calculated_lines`. */
  function Price(l: Line, year: Option<int>): (p: PricedLine)
    ensures !LineValid(l) ==> p.medicare == Fin(0.0) && p.beneficiary == Fin(0.0) && p.primaryPayer == Fin(0.0)
    ensures LineValid(l) ==>
      p.medicare == CoalesceNum(l.payment)
      && p.beneficiary == AddNum(CoalesceNum(l.deductible), CoalesceNum(l.coinsurance))
      && p.primaryPayer == CoalesceNum(l.primaryPayer)
  {
    var valid := LineValid(l);
    PricedLine(YearKey(l.bene, year),
      if valid then CoalesceNum(l.payment) else Fin(0.0),
      if valid then AddNum(CoalesceNum(l.deductible), CoalesceNum(l.coinsurance)) else Fin(0.0),
      if valid then CoalesceNum(l.primaryPayer) else Fin(0.0))
  }

  /** An invalid line contributes nothing, whatever amounts it carries; a
      valid one contributes its amounts with NULL read as 0. */
  lemma {:induction false} PriceFollowsRule(l: Line, year: Option<int>)
    ensures !ValidReference(l.indicator, l.allowed) ==>
      Price(l, year).medicare == Fin(0.0) && Price(l, year).beneficiary == Fin(0.0) && Price(l, year).primaryPayer == Fin(0.0)
    ensures ValidReference(l.indicator, l.allowed) && l.payment.None? ==> Price(l, year).medicare == Fin(0.0)
  {
    ValidIff(l.indicator, l.allowed);
  }

  function YearOf(l: Line): Option<int>
  {
    match CastYear(l.fromDate)
    case YearValue(y) => Some(y)
    case _ => None
  }

  function PriceAll(ls: seq<Line>): (ps: seq<PricedLine>)
    ensures |ps| == |ls|
    ensures forall i :: 0 <= i < |ls| ==> ps[i] == Price(ls[i], YearOf(ls[i]))
  {
    seq(|ls|, i requires 0 <= i < |ls| => Price(ls[i], YearOf(ls[i])))
  }

  datatype AmountColumn = Medicare | BeneficiaryPaid | PrimaryPayer

  function Amount(p: PricedLine, c: AmountColumn): Number
  {
    match c
    case Medicare => p.medicare
    case BeneficiaryPaid => p.beneficiary
    case PrimaryPayer => p.primaryPayer
  }

  /** The finite part of an amount, as a grouping entry. */
  function Entries(ps: seq<PricedLine>, c: AmountColumn): (es: seq<Entry<YearKey>>)
    ensures |es| == |ps|
    ensures forall i :: 0 <= i < |ps| ==>
      es[i].key == ps[i].key && es[i].amount == (if Amount(ps[i], c).Fin? then Amount(ps[i], c).r else 0.0)
  {
    seq(|ps|, i requires 0 <= i < |ps| =>
      Entry(ps[i].key, if Amount(ps[i], c).Fin? then Amount(ps[i], c).r else 0.0))
  }

  lemma {:induction false} EntriesShareKeys(ps: seq<PricedLine>, c: AmountColumn, d: AmountColumn)
    ensures KeysOf(Entries(ps, c)) == KeysOf(Entries(ps, d))
  {
  }

  predicate NaNInGroup(ps: seq<PricedLine>, k: YearKey, c: AmountColumn)
  {
    exists p :: p in ps && p.key == k && Amount(p, c).NaN?
  }

  /** `SUM(x)` over one group of doubles: NaN absorbs, otherwise the sum. */
  function GroupSum(ps: seq<PricedLine>, k: YearKey, c: AmountColumn): (s: Number)
    ensures s.NaN? <==> NaNInGroup(ps, k, c)
  {
    if NaNInGroup(ps, k, c) then NaN else Fin(Total(Filter(Entries(ps, c), k)))
  }

  datatype PaymentRow = PaymentRow(key: YearKey, medicare: Number, beneficiary: Number, primaryPayer: Number)

  function PaymentAmount(r: PaymentRow, c: AmountColumn): Number
  {
    match c
    case Medicare => r.medicare
    case BeneficiaryPaid => r.beneficiary
    case PrimaryPayer => r.primaryPayer
  }

  /** `GROUP BY DESYNPUF_ID, YEAR` with the three sums. */
  function Aggregate(ps: seq<PricedLine>): (rows: seq<PaymentRow>)
    ensures |rows| == |GroupKeys(Entries(ps, Medicare))|
  {
    var ks := GroupKeys(Entries(ps, Medicare));
    seq(|ks|, i requires 0 <= i < |ks| =>
      PaymentRow(ks[i], GroupSum(ps, ks[i], Medicare), GroupSum(ps, ks[i], BeneficiaryPaid), GroupSum(ps, ks[i], PrimaryPayer)))
  }

  /** There is one output row per distinct (beneficiary, year), and every
      priced line's pair has its row. */
  lemma {:induction false} AggregateKeys(ps: seq<PricedLine>)
    ensures forall i, j :: 0 <= i < j < |Aggregate(ps)| ==> Aggregate(ps)[i].key != Aggregate(ps)[j].key
    ensures forall p :: p in ps ==> exists i :: 0 <= i < |Aggregate(ps)| && Aggregate(ps)[i].key == p.key
  {
    var es := Entries(ps, Medicare);
    var ks := GroupKeys(es);
    forall p | p in ps ensures exists i :: 0 <= i < |Aggregate(ps)| && Aggregate(ps)[i].key == p.key {
      var j :| 0 <= j < |ps| && ps[j] == p;
      assert KeysOf(es)[j] == p.key;
      assert p.key in KeysOf(es);
      assert p.key in ks;
      var i :| 0 <= i < |ks| && ks[i] == p.key;
      assert Aggregate(ps)[i].key == p.key;
    }
  }

  predicate NoNaN(ps: seq<PricedLine>, c: AmountColumn)
  {
    forall i :: 0 <= i < |ps| ==> Amount(ps[i], c).Fin?
  }

  function RowEntries(rows: seq<PaymentRow>, c: AmountColumn): (es: seq<Entry<YearKey>>)
    ensures |es| == |rows|
    ensures forall i :: 0 <= i < |rows| ==>
      es[i].key == rows[i].key && es[i].amount == (if PaymentAmount(rows[i], c).Fin? then PaymentAmount(rows[i], c).r else 0.0)
  {
    seq(|rows|, i requires 0 <= i < |rows| =>
      Entry(rows[i].key, if PaymentAmount(rows[i], c).Fin? then PaymentAmount(rows[i], c).r else 0.0))
  }

  /** Without NaN amounts the aggregation is exactly the grouping of the
      priced lines. */
  lemma {:induction false} AggregateIsGroupBy(ps: seq<PricedLine>, c: AmountColumn)
    requires NoNaN(ps, c)
    ensures RowEntries(Aggregate(ps), c) == GroupBy(Entries(ps, c))
  {
    EntriesShareKeys(ps, c, Medicare);
    var es := Entries(ps, c);
    var ks := GroupKeys(es);
    GroupRowsAt(ks, es);
    var rows := Aggregate(ps);
    forall k ensures !NaNInGroup(ps, k, c) {
      forall p | p in ps && p.key == k ensures !Amount(p, c).NaN? {
        var j :| 0 <= j < |ps| && ps[j] == p;
      }
    }
    forall i | 0 <= i < |rows| ensures RowEntries(rows, c)[i] == GroupBy(es)[i] {
      assert PaymentAmount(rows[i], c) == GroupSum(ps, ks[i], c);
    }
  }

  /** Grouping loses and duplicates no money: without NaN amounts the
      per-(beneficiary, year) sums add up to the sum over all lines. */
  lemma {:induction false} AggregateConserves(ps: seq<PricedLine>, c: AmountColumn)
    requires NoNaN(ps, c)
    ensures Total(RowEntries(Aggregate(ps), c)) == Total(Entries(ps, c))
  {
    AggregateIsGroupBy(ps, c);
    GroupByConserves(Entries(ps, c));
  }

  /** A NaN amount on any line makes its whole group's sum NaN. */
  lemma {:induction false} NaNAbsorbs(ps: seq<PricedLine>, c: AmountColumn, p: PricedLine)
    requires p in ps && Amount(p, c).NaN?
    ensures exists i :: 0 <= i < |Aggregate(ps)| && Aggregate(ps)[i].key == p.key && PaymentAmount(Aggregate(ps)[i], c).NaN?
  {
    AggregateKeys(ps);
    var i :| 0 <= i < |Aggregate(ps)| && Aggregate(ps)[i].key == p.key;
    assert NaNInGroup(ps, p.key, c);
  }

  datatype Outcome<T> = Done(value: T) | ConversionError

  predicate CastFails(ls: seq<Line>)
  {
    exists l :: l in ls && CastYear(l.fromDate) == CastFailed
  }

  /** `view_calc_src_payments` over the source table, and the same query,
      `view_calc_new_payments`, over the new one. */
  function PaymentView(t: seq<Row>): (v: Outcome<seq<PaymentRow>>)
    ensures v.ConversionError? <==> CastFails(Unpivot(t))
  {
    var ls := Unpivot(t);
    if CastFails(ls) then ConversionError else Done(Aggregate(PriceAll(ls)))
  }

  /** One claim dated `'nan'` fails the whole view. */
  lemma {:induction false} NanDateFailsView(t: seq<Row>, r: Row)
    requires r in t && Get(r, "CLM_FROM_DT") == Some(Str("nan"))
    ensures PaymentView(t).ConversionError?
  {
    var j :| 0 <= j < |t| && t[j] == r;
    UnpivotByNumber(t, 1);
    assert SlotSelect(t, 1)[j] == LineOf(r, 1);
    assert LineOf(r, 1) in Numbered(Unpivot(t), 1);
    NanDateFailsCast();
  }
}
