/** `GROUP BY key` with `SUM(amount)`: the grouping every roll-up of the
    reconciliation uses (payments per beneficiary-year, defects per field
    family, money per field family). Groups come out in the order their key
    first appears; amounts are exact reals. */
module Group {
  import opened Sql
  import opened Table

  datatype Entry<K> = Entry(key: K, amount: real)

  function KeysOf<K>(xs: seq<Entry<K>>): (ks: seq<K>)
    ensures |ks| == |xs|
    ensures forall i :: 0 <= i < |xs| ==> ks[i] == xs[i].key
  {
    seq(|xs|, i requires 0 <= i < |xs| => xs[i].key)
  }

  /** `SUM(amount)` over a non-empty group, or 0 over no entry. */
  function Total<K>(xs: seq<Entry<K>>): real
  {
    if |xs| == 0 then 0.0 else Total(xs[..|xs| - 1]) + xs[|xs| - 1].amount
  }

  /** The entries of one group, in order. */
  function Filter<K(==,!new)>(xs: seq<Entry<K>>, k: K): (g: seq<Entry<K>>)
    ensures |g| <= |xs|
    ensures forall e :: e in g <==> e in xs && e.key == k
    ensures |g| == 0 <==> forall e :: e in xs ==> e.key != k
  {
    if |xs| == 0 then []
    else
      var init := Filter(xs[..|xs| - 1], k);
      var last := xs[|xs| - 1];
      assert forall e :: e in xs <==> e in xs[..|xs| - 1] || e == last by {
        assert xs == xs[..|xs| - 1] + [last];
      }
      if last.key == k then init + [last] else init
  }

  /** The distinct keys, in order of first appearance. */
  function GroupKeys<K(==,!new)>(xs: seq<Entry<K>>): (ks: seq<K>)
    ensures forall k :: k in ks <==> k in KeysOf(xs)
    ensures forall i, j :: 0 <= i < j < |ks| ==> ks[i] != ks[j]
  {
    Distinct(KeysOf(xs))
  }

  /** One output row per key of `ks`, carrying that key's total. */
  function GroupRows<K(==,!new)>(ks: seq<K>, xs: seq<Entry<K>>): (g: seq<Entry<K>>)
    ensures |g| == |ks|
  {
    if |ks| == 0 then []
    else GroupRows(ks[..|ks| - 1], xs) + [Entry(ks[|ks| - 1], Total(Filter(xs, ks[|ks| - 1])))]
  }

  lemma {:induction false} GroupRowsAt<K(!new)>(ks: seq<K>, xs: seq<Entry<K>>)
    ensures forall i :: 0 <= i < |ks| ==> GroupRows(ks, xs)[i] == Entry(ks[i], Total(Filter(xs, ks[i])))
  {
    if |ks| > 0 {
      GroupRowsAt(ks[..|ks| - 1], xs);
    }
  }

  function GroupBy<K(==,!new)>(xs: seq<Entry<K>>): (g: seq<Entry<K>>)
    ensures |g| == |GroupKeys(xs)|
  {
    GroupRows(GroupKeys(xs), xs)
  }

  /** The output has exactly one row per distinct input key, and that row
      holds the sum over the entries with its key. */
  lemma {:induction false} GroupByKeys<K(!new)>(xs: seq<Entry<K>>)
    ensures forall i, j :: 0 <= i < j < |GroupBy(xs)| ==> GroupBy(xs)[i].key != GroupBy(xs)[j].key
    ensures forall e :: e in xs ==> exists i :: 0 <= i < |GroupBy(xs)| && GroupBy(xs)[i].key == e.key
    ensures forall i :: 0 <= i < |GroupBy(xs)| ==>
      GroupBy(xs)[i].key in KeysOf(xs) && GroupBy(xs)[i].amount == Total(Filter(xs, GroupBy(xs)[i].key))
  {
    var ks := GroupKeys(xs);
    GroupRowsAt(ks, xs);
    forall e | e in xs ensures exists i :: 0 <= i < |GroupBy(xs)| && GroupBy(xs)[i].key == e.key {
      var j :| 0 <= j < |xs| && xs[j] == e;
      assert e.key in KeysOf(xs);
      var i :| 0 <= i < |ks| && ks[i] == e.key;
      assert GroupBy(xs)[i].key == e.key;
    }
  }

  lemma {:induction false} FilterAppend<K(!new)>(xs: seq<Entry<K>>, e: Entry<K>, k: K)
    ensures Filter(xs + [e], k) == if e.key == k then Filter(xs, k) + [e] else Filter(xs, k)
  {
    assert (xs + [e])[..|xs|] == xs;
  }

  lemma {:induction false} FilterAbsent<K(!new)>(xs: seq<Entry<K>>, k: K)
    requires k !in KeysOf(xs)
    ensures Filter(xs, k) == []
  {
    forall e | e in xs ensures e.key != k {
      var j :| 0 <= j < |xs| && xs[j] == e;
      assert KeysOf(xs)[j] == e.key;
    }
  }

  /** With distinct keys every group is the single entry with its key. */
  lemma {:induction false} FilterDistinct<K(!new)>(xs: seq<Entry<K>>, i: nat)
    requires forall p, q :: 0 <= p < q < |xs| ==> xs[p].key != xs[q].key
    requires i < |xs|
    ensures Filter(xs, xs[i].key) == [xs[i]]
  {
    var init := xs[..|xs| - 1];
    var last := xs[|xs| - 1];
    if i == |xs| - 1 {
      forall e | e in init ensures e.key != last.key {
        var p :| 0 <= p < |init| && init[p] == e;
        assert xs[p] == e;
      }
    } else {
      FilterDistinct(init, i);
      assert init[i] == xs[i];
    }
  }

  lemma {:induction false} TotalAppend<K>(xs: seq<Entry<K>>, e: Entry<K>)
    ensures Total(xs + [e]) == Total(xs) + e.amount
  {
    assert (xs + [e])[..|xs|] == xs;
  }

  /** The keys of an input with one more entry: its key joins the end when
      it is new. */
  lemma {:induction false} GroupKeysSnoc<K(!new)>(xs: seq<Entry<K>>)
    requires |xs| > 0
    ensures GroupKeys(xs) == if xs[|xs| - 1].key in GroupKeys(xs[..|xs| - 1]) then GroupKeys(xs[..|xs| - 1])
      else GroupKeys(xs[..|xs| - 1]) + [xs[|xs| - 1].key]
  {
    assert KeysOf(xs)[..|xs| - 1] == KeysOf(xs[..|xs| - 1]);
  }

  /** The last row of `GroupRows` is the last key's group. */
  lemma {:induction false} GroupRowsLast<K(!new)>(ks: seq<K>, xs: seq<Entry<K>>)
    requires |ks| > 0
    ensures Total(GroupRows(ks, xs)) == Total(GroupRows(ks[..|ks| - 1], xs)) + Total(Filter(xs, ks[|ks| - 1]))
  {
    TotalAppend(GroupRows(ks[..|ks| - 1], xs), Entry(ks[|ks| - 1], Total(Filter(xs, ks[|ks| - 1]))));
  }

  /** The last entry of the input adds its amount to its own group only. */
  lemma {:induction false} FilterSnoc<K(!new)>(xs: seq<Entry<K>>, k: K)
    requires |xs| > 0
    ensures Total(Filter(xs, k)) == Total(Filter(xs[..|xs| - 1], k))
      + (if xs[|xs| - 1].key == k then xs[|xs| - 1].amount else 0.0)
  {
    if xs[|xs| - 1].key == k {
      TotalAppend(Filter(xs[..|xs| - 1], k), xs[|xs| - 1]);
    }
  }

  /** The last entry of the input adds its amount to the rows of `ks`
      exactly once when its key is among them (and `ks` has no repeats). */
  lemma {:induction false} GroupRowsSnoc<K(!new)>(ks: seq<K>, xs: seq<Entry<K>>)
    requires |xs| > 0
    requires forall i, j :: 0 <= i < j < |ks| ==> ks[i] != ks[j]
    ensures Total(GroupRows(ks, xs)) == Total(GroupRows(ks, xs[..|xs| - 1]))
      + (if xs[|xs| - 1].key in ks then xs[|xs| - 1].amount else 0.0)
  {
    if |ks| > 0 {
      var kinit := ks[..|ks| - 1];
      var k := ks[|ks| - 1];
      var e := xs[|xs| - 1];
      GroupRowsSnoc(kinit, xs);
      GroupRowsLast(ks, xs);
      GroupRowsLast(ks, xs[..|xs| - 1]);
      FilterSnoc(xs, k);
      LastOfDistinct(ks, e.key);
    }
  }

  /** In a sequence without repeats, the last element is not in the front,
      and anything else is in the whole exactly when it is in the front. */
  lemma {:induction false} LastOfDistinct<K>(ks: seq<K>, x: K)
    requires |ks| > 0
    requires forall i, j :: 0 <= i < j < |ks| ==> ks[i] != ks[j]
    ensures x in ks <==> x in ks[..|ks| - 1] || x == ks[|ks| - 1]
    ensures x == ks[|ks| - 1] ==> x !in ks[..|ks| - 1]
  {
    assert ks == ks[..|ks| - 1] + [ks[|ks| - 1]];
  }

  /** One more key adds one more group's total. */
  lemma {:induction false} GroupRowsSnocKey<K(!new)>(ks: seq<K>, k: K, xs: seq<Entry<K>>)
    ensures Total(GroupRows(ks + [k], xs)) == Total(GroupRows(ks, xs)) + Total(Filter(xs, k))
  {
    assert (ks + [k])[..|ks|] == ks;
  }

  /** The group of a key first seen in the last entry is that entry. */
  lemma {:induction false} NewKeyGroup<K(!new)>(xs: seq<Entry<K>>)
    requires |xs| > 0
    requires xs[|xs| - 1].key !in KeysOf(xs[..|xs| - 1])
    ensures Total(Filter(xs, xs[|xs| - 1].key)) == xs[|xs| - 1].amount
  {
    FilterAbsent(xs[..|xs| - 1], xs[|xs| - 1].key);
    FilterSnoc(xs, xs[|xs| - 1].key);
  }

  /** Grouping loses and duplicates nothing: the group totals add up to the
      total of the input. */
  lemma {:induction false} GroupByConserves<K(!new)>(xs: seq<Entry<K>>)
    ensures Total(GroupBy(xs)) == Total(xs)
  {
    if |xs| > 0 {
      var init := xs[..|xs| - 1];
      GroupByConserves(init);
      if xs[|xs| - 1].key in GroupKeys(init) {
        ConservesSeenKey(xs);
      } else {
        ConservesNewKey(xs);
      }
    }
  }

  /** The step of `GroupByConserves` when the last key was seen before. */
  lemma {:induction false} ConservesSeenKey<K(!new)>(xs: seq<Entry<K>>)
    requires |xs| > 0 && xs[|xs| - 1].key in GroupKeys(xs[..|xs| - 1])
    requires Total(GroupBy(xs[..|xs| - 1])) == Total(xs[..|xs| - 1])
    ensures Total(GroupBy(xs)) == Total(xs)
  {
    var ks := GroupKeys(xs[..|xs| - 1]);
    GroupKeysSnoc(xs);
    assert GroupBy(xs) == GroupRows(ks, xs);
    GroupRowsSnoc(ks, xs);
  }

  /** The step of `GroupByConserves` when the last key is new. */
  lemma {:induction false} ConservesNewKey<K(!new)>(xs: seq<Entry<K>>)
    requires |xs| > 0 && xs[|xs| - 1].key !in GroupKeys(xs[..|xs| - 1])
    requires Total(GroupBy(xs[..|xs| - 1])) == Total(xs[..|xs| - 1])
    ensures Total(GroupBy(xs)) == Total(xs)
  {
    var ks := GroupKeys(xs[..|xs| - 1]);
    NewKeyGroupBy(xs);
    NewKeyTotals(ks, xs);
  }

  lemma {:induction false} NewKeyGroupBy<K(!new)>(xs: seq<Entry<K>>)
    requires |xs| > 0 && xs[|xs| - 1].key !in GroupKeys(xs[..|xs| - 1])
    ensures GroupBy(xs) == GroupRows(GroupKeys(xs[..|xs| - 1]) + [xs[|xs| - 1].key], xs)
  {
    GroupKeysSnoc(xs);
  }

  /** A key first seen in the last entry adds a group holding just that
      entry's amount. */
  lemma {:induction false} NewKeyTotals<K(!new)>(ks: seq<K>, xs: seq<Entry<K>>)
    requires |xs| > 0 && forall i, j :: 0 <= i < j < |ks| ==> ks[i] != ks[j]
    requires xs[|xs| - 1].key !in ks && xs[|xs| - 1].key !in KeysOf(xs[..|xs| - 1])
    ensures Total(GroupRows(ks + [xs[|xs| - 1].key], xs)) == Total(GroupRows(ks, xs[..|xs| - 1])) + xs[|xs| - 1].amount
  {
    var k := xs[|xs| - 1].key;
    GroupRowsSnoc(ks, xs);
    GroupRowsSnocKey(ks, k, xs);
    NewKeyGroup(xs);
  }

  /** Non-negative amounts have a non-negative total. */
  lemma {:induction false} TotalNonNegative<K>(xs: seq<Entry<K>>)
    requires forall e :: e in xs ==> e.amount >= 0.0
    ensures Total(xs) >= 0.0
  {
    if |xs| > 0 {
      assert xs[|xs| - 1] in xs;
      TotalNonNegative(xs[..|xs| - 1]);
    }
  }

  /** Non-negative amounts with one positive amount have a positive total. */
  lemma {:induction false} TotalPositive<K>(xs: seq<Entry<K>>)
    requires forall e :: e in xs ==> e.amount >= 0.0
    requires exists e :: e in xs && e.amount > 0.0
    ensures Total(xs) > 0.0
  {
    var init := xs[..|xs| - 1];
    assert xs == init + [xs[|xs| - 1]];
    assert forall e :: e in init ==> e in xs;
    TotalNonNegative(init);
    if xs[|xs| - 1].amount <= 0.0 {
      var e :| e in xs && e.amount > 0.0;
      assert e in init;
      TotalPositive(init);
    }
  }

  /** Grouping non-negative amounts gives non-negative group sums. */
  lemma {:induction false} GroupsNonNegative<K(!new)>(xs: seq<Entry<K>>)
    requires forall e :: e in xs ==> e.amount >= 0.0
    ensures forall i :: 0 <= i < |GroupBy(xs)| ==> GroupBy(xs)[i].amount >= 0.0
  {
    GroupByKeys(xs);
    forall i | 0 <= i < |GroupBy(xs)| ensures GroupBy(xs)[i].amount >= 0.0 {
      TotalNonNegative(Filter(xs, GroupBy(xs)[i].key));
    }
  }
}
