/** Pareto ranking: rows ordered by a window `ORDER BY`, each annotated
    with `sum(x) OVER (ORDER BY ... ROWS BETWEEN UNBOUNDED PRECEDING AND
    CURRENT ROW) / sum(x) OVER ()`. The defect views order by total DESC,
    DPMO DESC, name ASC; the financial views order by variance DESC alone. */
module Pareto {
  import opened Sql
  import opened Text

  /** One ranked row: the field family, its total (defects or money) and
      its DPMO (0 where the view has none). */
  datatype Item = Item(field: string, total: real, dpmo: real)

  function Totals(xs: seq<Item>): (ts: seq<real>)
    ensures |ts| == |xs|
    ensures forall i :: 0 <= i < |xs| ==> ts[i] == xs[i].total
  {
    seq(|xs|, i requires 0 <= i < |xs| => xs[i].total)
  }

  /** The window fraction at every position; NULL everywhere when the
      grand total is 0, as a division by zero gives NULL. */
  function RunningPct(xs: seq<real>): (r: seq<Option<real>>)
    ensures |r| == |xs|
    ensures SumReal(xs) == 0.0 ==> forall i :: 0 <= i < |xs| ==> r[i].None?
    ensures SumReal(xs) != 0.0 ==> forall i :: 0 <= i < |xs| ==> r[i].Some?
  {
    var t := SumReal(xs);
    seq(|xs|, i requires 0 <= i < |xs| => if t == 0.0 then None else Some(SumReal(xs[..i + 1]) / t))
  }

  predicate NonNegative(xs: seq<real>)
  {
    forall i :: 0 <= i < |xs| ==> xs[i] >= 0.0
  }

  lemma {:induction false} PrefixSumsGrow(xs: seq<real>, j: nat)
    requires NonNegative(xs) && j <= |xs|
    ensures forall i :: 0 <= i <= j ==> 0.0 <= SumReal(xs[..i]) <= SumReal(xs[..j])
  {
    if j > 0 {
      PrefixSumsGrow(xs, j - 1);
      assert xs[..j][..j - 1] == xs[..j - 1];
    }
  }

  lemma {:induction false} DivideBounds(a: real, b: real, t: real)
    requires t > 0.0 && 0.0 <= a <= b <= t
    ensures 0.0 <= a / t <= b / t <= 1.0
  {
    assert a / t * t == a && b / t * t == b;
  }

  lemma {:induction false} RunningPctAt(xs: seq<real>, i: nat)
    requires i < |xs| && SumReal(xs) != 0.0
    ensures RunningPct(xs)[i] == Some(SumReal(xs[..i + 1]) / SumReal(xs))
  {
  }

  lemma {:induction false} RunningPctPair(xs: seq<real>, i: nat, j: nat)
    requires NonNegative(xs) && SumReal(xs) > 0.0 && i <= j < |xs|
    ensures 0.0 <= RunningPct(xs)[i].value <= RunningPct(xs)[j].value <= 1.0
  {
    var t := SumReal(xs);
    var a := SumReal(xs[..i + 1]);
    var b := SumReal(xs[..j + 1]);
    PrefixSumsGrow(xs, |xs|);
    PrefixSumsGrow(xs, j + 1);
    assert xs[..|xs|] == xs;
    assert 0.0 <= a <= b <= t;
    RunningPctAt(xs, i);
    RunningPctAt(xs, j);
    DivideBounds(a, b, t);
  }

  /** With non-negative amounts and a positive total, the running
      percentage stays within [0, 1], never decreases and ends at exactly 1. */
  lemma {:induction false} RunningPctIsCumulative(xs: seq<real>)
    requires NonNegative(xs) && SumReal(xs) > 0.0
    ensures forall i, j :: 0 <= i <= j < |xs| ==>
      0.0 <= RunningPct(xs)[i].value <= RunningPct(xs)[j].value <= 1.0
    ensures |xs| > 0 && RunningPct(xs)[|xs| - 1] == Some(1.0)
  {
    forall i, j | 0 <= i <= j < |xs|
      ensures 0.0 <= RunningPct(xs)[i].value <= RunningPct(xs)[j].value <= 1.0
    {
      RunningPctPair(xs, i, j);
    }
    if |xs| > 0 {
      assert xs[..|xs|] == xs;
      RunningPctAt(xs, |xs| - 1);
      assert SumReal(xs) / SumReal(xs) == 1.0;
    }
  }

  /** The defect views' order: total DESC, DPMO DESC, name ASC. */
  predicate DefectBefore(a: Item, b: Item)
  {
    a.total > b.total
    || (a.total == b.total && (a.dpmo > b.dpmo || (a.dpmo == b.dpmo && StrLe(a.field, b.field))))
  }

  lemma {:induction false} StrLeReflexive(a: string)
    ensures StrLe(a, a)
  {
    if |a| > 0 {
      StrLeReflexive(a[1..]);
    }
  }

  lemma {:induction false} DefectOrderTotal(a: Item, b: Item)
    ensures DefectBefore(a, b) || DefectBefore(b, a)
  {
    StrLeTotal(a.field, b.field);
  }

  lemma {:induction false} DefectOrderAntisymmetric(a: Item, b: Item)
    requires DefectBefore(a, b) && DefectBefore(b, a)
    ensures a == b
  {
    StrLeAntisymmetric(a.field, b.field);
  }

  lemma {:induction false} DefectOrderTransitive(a: Item, b: Item, c: Item)
    requires DefectBefore(a, b) && DefectBefore(b, c)
    ensures DefectBefore(a, c)
  {
    if a.total == b.total == c.total && a.dpmo == b.dpmo == c.dpmo {
      StrLeTransitive(a.field, b.field, c.field);
    }
  }

  predicate SortedDefect(s: seq<Item>)
  {
    forall i, j :: 0 <= i < j < |s| ==> DefectBefore(s[i], s[j])
  }

  lemma {:induction false} SortedTail(s: seq<Item>)
    requires SortedDefect(s) && |s| > 0
    ensures SortedDefect(s[1..])
  {
    forall p, q | 0 <= p < q < |s[1..]| ensures DefectBefore(s[1..][p], s[1..][q]) {
      assert s[1..][p] == s[p + 1] && s[1..][q] == s[q + 1];
    }
  }

  /** The head of a sorted sequence comes before every element of it. */
  lemma {:induction false} SortedHeadFirst(s: seq<Item>, y: Item)
    requires SortedDefect(s) && y in s
    ensures DefectBefore(s[0], y)
  {
    var j :| 0 <= j < |s| && s[j] == y;
    if j == 0 {
      StrLeReflexive(y.field);
    }
  }

  /** Sortedness of `[x] + s` from sortedness of `s` and `x` preceding the
      head of `s`. */
  lemma {:induction false} SortedCons(x: Item, s: seq<Item>)
    requires SortedDefect(s)
    requires forall y :: y in s ==> DefectBefore(x, y)
    ensures SortedDefect([x] + s)
  {
    var r := [x] + s;
    forall i, j | 0 <= i < j < |r| ensures DefectBefore(r[i], r[j]) {
      assert r[j] == s[j - 1];
      if i > 0 {
        assert r[i] == s[i - 1];
      }
    }
  }

  /** Insertion into a sorted sequence, before the first element `x`
      precedes. */
  function Insert(x: Item, s: seq<Item>): (r: seq<Item>)
    ensures |r| == |s| + 1
    ensures multiset(r) == multiset(s) + multiset{x}
  {
    if |s| == 0 then [x]
    else if DefectBefore(x, s[0]) then
      assert multiset([x] + s) == multiset{x} + multiset(s);
      [x] + s
    else
      assert s == [s[0]] + s[1..];
      [s[0]] + Insert(x, s[1..])
  }

  lemma {:induction false} InsertSorted(x: Item, s: seq<Item>)
    requires SortedDefect(s)
    ensures SortedDefect(Insert(x, s))
  {
    if |s| > 0 {
      if DefectBefore(x, s[0]) {
        forall y | y in s ensures DefectBefore(x, y) {
          SortedHeadFirst(s, y);
          DefectOrderTransitive(x, s[0], y);
        }
        SortedCons(x, s);
      } else {
        SortedTail(s);
        InsertSorted(x, s[1..]);
        var rest := Insert(x, s[1..]);
        DefectOrderTotal(x, s[0]);
        assert s == [s[0]] + s[1..];
        forall y | y in rest ensures DefectBefore(s[0], y) {
          assert y in multiset(rest);
          if y != x {
            assert y in multiset(s[1..]);
            SortedHeadFirst(s, y);
          }
        }
        SortedCons(s[0], rest);
      }
    }
  }

  /** Insertion sort into the defect order. */
  function SortDefect(xs: seq<Item>): (r: seq<Item>)
    ensures SortedDefect(r)
    ensures |r| == |xs|
    ensures multiset(r) == multiset(xs)
  {
    if |xs| == 0 then []
    else
      assert xs == xs[..|xs| - 1] + [xs[|xs| - 1]];
      var init := SortDefect(xs[..|xs| - 1]);
      InsertSorted(xs[|xs| - 1], init);
      Insert(xs[|xs| - 1], init)
  }

  /** The defect order has a tie-break on every column, so the ranking is
      fully determined: any two sorted arrangements of the same rows are
      equal. */
  lemma {:induction false} SortedDefectUnique(a: seq<Item>, b: seq<Item>)
    requires SortedDefect(a) && SortedDefect(b) && multiset(a) == multiset(b)
    ensures a == b
  {
    assert |a| == |multiset(a)| == |multiset(b)| == |b|;
    if |a| > 0 {
      assert a[0] in multiset(b) && b[0] in multiset(a);
      SortedHeadFirst(b, a[0]);
      SortedHeadFirst(a, b[0]);
      DefectOrderAntisymmetric(a[0], b[0]);
      assert a == [a[0]] + a[1..];
      assert b == [b[0]] + b[1..];
      assert multiset(a) == multiset{a[0]} + multiset(a[1..]);
      assert multiset(b) == multiset{b[0]} + multiset(b[1..]);
      assert multiset(a[1..]) == multiset(a) - multiset{a[0]};
      assert multiset(b[1..]) == multiset(b) - multiset{b[0]};
      SortedTail(a);
      SortedTail(b);
      SortedDefectUnique(a[1..], b[1..]);
    }
  }

  /** The financial views' order: variance DESC, nothing else. */
  predicate SortedVariance(s: seq<Item>)
  {
    forall i, j :: 0 <= i < j < |s| ==> s[i].total >= s[j].total
  }

  /** What a window `ORDER BY` on variance alone may pick for `xs`: any
      arrangement sorted by variance. */
  predicate VarianceRanking(xs: seq<Item>, out: seq<Item>)
  {
    multiset(out) == multiset(xs) && SortedVariance(out)
  }

  /** An arrangement always exists: the defect sort is one. */
  lemma {:induction false} VarianceRankingExists(xs: seq<Item>)
    ensures VarianceRanking(xs, SortDefect(xs))
  {
  }

  /** One output row of a Pareto view. */
  datatype ParetoRow = ParetoRow(field: string, total: real, running: Option<real>)

  function ParetoRows(ranked: seq<Item>): (rows: seq<ParetoRow>)
    ensures |rows| == |ranked|
    ensures forall i :: 0 <= i < |ranked| ==>
      rows[i].field == ranked[i].field && rows[i].total == ranked[i].total
  {
    var pct := RunningPct(Totals(ranked));
    seq(|ranked|, i requires 0 <= i < |ranked| => ParetoRow(ranked[i].field, ranked[i].total, pct[i]))
  }

  /** Without a tie-break the financial views are not determined by their
      input: two families with equal variance may come out in either order,
      and the running percentage reported for a family depends on which. */
  lemma {:induction false} VarianceTieIsAmbiguous()
    ensures var a := Item("A", 1.0, 0.0);
            var b := Item("B", 1.0, 0.0);
            VarianceRanking([a, b], [a, b]) && VarianceRanking([a, b], [b, a])
            && ParetoRows([a, b])[0] == ParetoRow("A", 1.0, Some(0.5))
            && ParetoRows([b, a])[1] == ParetoRow("A", 1.0, Some(1.0))
  {
    var a := Item("A", 1.0, 0.0);
    var b := Item("B", 1.0, 0.0);
    assert multiset([b, a]) == multiset([a, b]);
    assert SumReal([1.0, 1.0]) == 2.0 by {
      assert [1.0, 1.0][..1] == [1.0];
      assert [1.0][..0] == [];
    }
    assert Totals([a, b]) == [1.0, 1.0];
    assert Totals([b, a]) == [1.0, 1.0];
    assert [1.0, 1.0][..1] == [1.0];
    assert [1.0, 1.0][..2] == [1.0, 1.0];
  }

  /** What a second, independent `ORDER BY` on variance alone may list:
      the rows rearranged, sorted by variance, with ties in any order, so
      not necessarily in the order the window picked. */
  predicate ListedRanking(rows: seq<ParetoRow>, out: seq<ParetoRow>)
  {
    multiset(out) == multiset(rows) && forall i, j :: 0 <= i < j < |out| ==> out[i].total >= out[j].total
  }

  /** A listed row is one of the rows. */
  lemma {:induction false} ListedFrom(rows: seq<ParetoRow>, out: seq<ParetoRow>, i: nat) returns (p: nat)
    requires multiset(out) == multiset(rows) && i < |out|
    ensures p < |rows| && rows[p] == out[i]
  {
    assert out[i] in multiset(rows);
    p :| 0 <= p < |rows| && rows[p] == out[i];
  }

  /** Along a window sorted by variance, a strictly larger variance comes
      strictly earlier. */
  lemma {:induction false} LargerComesFirst(window: seq<Item>, p: nat, q: nat)
    requires SortedVariance(window) && p < |window| && q < |window|
    requires window[p].total > window[q].total
    ensures p < q
  {
  }

  /** Two listed rows of different variance show their shares in the
      window's order: the larger variance has the smaller or equal share. */
  lemma {:induction false} ListedPair(window: seq<Item>, out: seq<ParetoRow>, i: nat, j: nat)
    requires SortedVariance(window) && NonNegative(Totals(window)) && SumReal(Totals(window)) > 0.0
    requires ListedRanking(ParetoRows(window), out)
    requires i < |out| && j < |out| && out[i].total > out[j].total
    ensures out[i].running.Some? && out[j].running.Some?
    ensures out[i].running.value <= out[j].running.value
  {
    var rows := ParetoRows(window);
    var p := ListedFrom(rows, out, i);
    var q := ListedFrom(rows, out, j);
    LargerComesFirst(window, p, q);
    RunningPctPair(Totals(window), p, q);
  }

  /** One listed row's share lies in [0, 1]. */
  lemma {:induction false} ListedShare(window: seq<Item>, out: seq<ParetoRow>, i: nat)
    requires NonNegative(Totals(window)) && SumReal(Totals(window)) > 0.0
    requires ListedRanking(ParetoRows(window), out) && i < |out|
    ensures out[i].running.Some? && 0.0 <= out[i].running.value <= 1.0
  {
    var p := ListedFrom(ParetoRows(window), out, i);
    RunningPctPair(Totals(window), p, p);
  }

  /** What the listing keeps of the running share when ties may be listed
      in another order than the window's: every share lies in [0, 1], the
      shares rise between rows of different variance, and some row carries
      exactly 1. Between tied rows the shares may fall, see
      ListedTieFalls. */
  lemma {:induction false} ListedShares(window: seq<Item>, out: seq<ParetoRow>)
    requires SortedVariance(window) && NonNegative(Totals(window)) && SumReal(Totals(window)) > 0.0
    requires ListedRanking(ParetoRows(window), out)
    ensures forall i :: 0 <= i < |out| ==>
      out[i].running.Some? && 0.0 <= out[i].running.value <= 1.0
    ensures forall i, j :: 0 <= i < |out| && 0 <= j < |out| && out[i].total > out[j].total ==>
      out[i].running.Some? && out[j].running.Some? && out[i].running.value <= out[j].running.value
    ensures exists i :: 0 <= i < |out| && out[i].running == Some(1.0)
  {
    var rows := ParetoRows(window);
    forall i | 0 <= i < |out|
      ensures out[i].running.Some? && 0.0 <= out[i].running.value <= 1.0
    {
      ListedShare(window, out, i);
    }
    forall i, j | 0 <= i < |out| && 0 <= j < |out| && out[i].total > out[j].total
      ensures out[i].running.Some? && out[j].running.Some? && out[i].running.value <= out[j].running.value
    {
      ListedPair(window, out, i, j);
    }
    RunningPctIsCumulative(Totals(window));
    var last := rows[|rows| - 1];
    assert last in multiset(out);
    var k :| 0 <= k < |out| && out[k] == last;
    assert out[k].running == Some(1.0);
  }

  /** The listing may show tied rows against the window's order: with two
      families of equal variance windowed as A then B, the view may list
      B (share 1) before A (share 0.5), so the shares fall and the last
      listed share is not 1. */
  lemma {:induction false} ListedTieFalls()
    ensures var a := Item("A", 1.0, 0.0);
            var b := Item("B", 1.0, 0.0);
            var out := [ParetoRow("B", 1.0, Some(1.0)), ParetoRow("A", 1.0, Some(0.5))];
            SortedVariance([a, b]) && ListedRanking(ParetoRows([a, b]), out)
            && out[0].running.value > out[1].running.value
  {
    var a := Item("A", 1.0, 0.0);
    var b := Item("B", 1.0, 0.0);
    assert SumReal([1.0, 1.0]) == 2.0 by {
      assert [1.0, 1.0][..1] == [1.0];
      assert [1.0][..0] == [];
    }
    assert Totals([a, b]) == [1.0, 1.0];
    assert [1.0, 1.0][..1] == [1.0];
    assert [1.0, 1.0][..2] == [1.0, 1.0];
    var rows := ParetoRows([a, b]);
    assert rows == [ParetoRow("A", 1.0, Some(0.5)), ParetoRow("B", 1.0, Some(1.0))];
  }

  lemma {:induction false} SumRealConcat(a: seq<real>, b: seq<real>)
    ensures SumReal(a + b) == SumReal(a) + SumReal(b)
    decreases |b|
  {
    if |b| > 0 {
      assert (a + b)[..|a + b| - 1] == a + b[..|b| - 1];
      SumRealConcat(a, b[..|b| - 1]);
    } else {
      assert a + b == a;
    }
  }

  lemma {:induction false} MultisetRemove<T>(b: seq<T>, k: nat)
    requires k < |b|
    ensures multiset(b[..k] + b[k + 1..]) == multiset(b) - multiset{b[k]}
  {
    assert b == b[..k] + [b[k]] + b[k + 1..];
    assert multiset(b) == multiset(b[..k]) + multiset{b[k]} + multiset(b[k + 1..]);
  }

  lemma {:induction false} MultisetLast<T>(a: seq<T>)
    requires |a| > 0
    ensures multiset(a[..|a| - 1]) == multiset(a) - multiset{a[|a| - 1]}
  {
    assert a == a[..|a| - 1] + [a[|a| - 1]];
  }

  lemma {:induction false} SumRealSingle(x: real)
    ensures SumReal([x]) == x
  {
    assert [x][..0] == [];
  }

  lemma {:induction false} SumRealSplit(b: seq<real>, k: nat)
    requires k <= |b|
    ensures SumReal(b) == SumReal(b[..k]) + SumReal(b[k..])
  {
    assert b[..k] + b[k..] == b;
    SumRealConcat(b[..k], b[k..]);
  }

  lemma {:induction false} SumRealFirst(c: seq<real>)
    requires |c| > 0
    ensures SumReal(c) == c[0] + SumReal(c[1..])
  {
    assert [c[0]] + c[1..] == c;
    SumRealConcat([c[0]], c[1..]);
    SumRealSingle(c[0]);
  }

  lemma {:induction false} SumRealRemove(b: seq<real>, k: nat)
    requires k < |b|
    ensures SumReal(b) == SumReal(b[..k] + b[k + 1..]) + b[k]
  {
    SumRealSplit(b, k);
    var rest := b[k..];
    SumRealFirst(rest);
    assert rest[0] == b[k] && rest[1..] == b[k + 1..];
    SumRealConcat(b[..k], b[k + 1..]);
  }

  lemma {:induction false} TotalsSplit(b: seq<Item>, k: nat)
    requires k < |b|
    ensures Totals(b[..k] + b[k + 1..]) == Totals(b)[..k] + Totals(b)[k + 1..]
  {
  }

  /** Taking the same element out of two rearrangements of each other
      leaves rearrangements of each other. */
  lemma {:induction false} PermutationRest<T>(a: seq<T>, b: seq<T>, k: nat)
    requires multiset(a) == multiset(b) && |a| > 0 && k < |b| && b[k] == a[|a| - 1]
    ensures multiset(a[..|a| - 1]) == multiset(b[..k] + b[k + 1..])
  {
    MultisetRemove(b, k);
    MultisetLast(a);
  }

  /** Rearranging the items does not change the sum of their totals. */
  lemma {:induction false} SumPermutation(a: seq<Item>, b: seq<Item>)
    requires multiset(a) == multiset(b)
    ensures SumReal(Totals(a)) == SumReal(Totals(b))
    decreases |a|
  {
    if |a| > 0 {
      var x := a[|a| - 1];
      assert x in multiset(b);
      var k :| 0 <= k < |b| && b[k] == x;
      var rest := b[..k] + b[k + 1..];
      PermutationRest(a, b, k);
      SumPermutation(a[..|a| - 1], rest);
      var ta := Totals(a);
      var tb := Totals(b);
      assert SumReal(ta) == SumReal(ta[..|a| - 1]) + x.total;
      assert ta[..|a| - 1] == Totals(a[..|a| - 1]);
      SumRealRemove(tb, k);
      TotalsSplit(b, k);
      assert SumReal(tb) == SumReal(Totals(rest)) + x.total;
    } else {
      assert |b| == |multiset(b)| == 0;
    }
  }
}
