/** Rows, keys and the join forms the reconciliation queries use: the
    `SELECT DISTINCT ... UNION SELECT DISTINCT ...` key union, `LEFT JOIN` on
    a list of key columns compared with SQL `=`, and the anti-join
    `LEFT JOIN ... WHERE n.k IS NULL`. A table is a sequence of rows, so
    duplicates and join multiplicity stay visible. */
module Table {
  import opened Sql

  /** A row maps column names to cells; a column the row lacks reads as NULL. */
  type Row = map<string, Cell>

  function Get(r: Row, c: string): (v: Cell)
    ensures c in r ==> v == r[c]
    ensures c !in r ==> v.None?
  {
    if c in r then r[c] else None
  }

  /** The values of the key columns of a row, in key order. */
  type Key = seq<Cell>

  function KeyOf(r: Row, cols: seq<string>): (k: Key)
    ensures |k| == |cols|
    ensures forall i :: 0 <= i < |cols| ==> k[i] == Get(r, cols[i])
  {
    seq(|cols|, i requires 0 <= i < |cols| => Get(r, cols[i]))
  }

  /** A key is listed exactly when some row has it. */
  lemma {:induction false} KeysMember(t: seq<Row>, cols: seq<string>, k: Key)
    ensures k in Keys(t, cols) <==> exists r :: r in t && KeyOf(r, cols) == k
  {
    if exists r :: r in t && KeyOf(r, cols) == k {
      var r :| r in t && KeyOf(r, cols) == k;
      var i :| 0 <= i < |t| && t[i] == r;
      assert Keys(t, cols)[i] == k;
    }
  }

  function Keys(t: seq<Row>, cols: seq<string>): (ks: seq<Key>)
    ensures |ks| == |t|
    ensures forall i :: 0 <= i < |t| ==> ks[i] == KeyOf(t[i], cols)
  {
    seq(|t|, i requires 0 <= i < |t| => KeyOf(t[i], cols))
  }

  predicate NonNullKey(k: Key)
  {
    forall i :: 0 <= i < |k| ==> k[i].Some?
  }

  /** `a1 = b1 AND a2 = b2 AND ...` in three-valued logic. */
  function MatchCond(a: Key, b: Key): Bool3
    requires |a| == |b|
  {
    if |a| == 0 then True3 else And3(Eq3(a[0], b[0]), MatchCond(a[1..], b[1..]))
  }

  /** The `ON` condition of a key join keeps the pair. */
  predicate Matches(a: Key, b: Key)
  {
    |a| == |b| && Holds(MatchCond(a, b))
  }

  /** A key join matches exactly the equal keys without NULL components: a
      NULL never equals anything, itself included. */
  lemma {:induction false} MatchesMeaning(a: Key, b: Key)
    ensures Matches(a, b) <==> |a| == |b| && NonNullKey(a) && a == b
    decreases |a|
  {
    if |a| == |b| && |a| > 0 {
      MatchesMeaning(a[1..], b[1..]);
      if Matches(a, b) {
        assert a == [a[0]] + a[1..] && b == [b[0]] + b[1..];
        assert NonNullKey(a) by {
          forall i | 0 <= i < |a| ensures a[i].Some? {
            if i > 0 {
              assert a[1..][i - 1] == a[i];
            }
          }
        }
      }
      if NonNullKey(a) && a == b {
        assert NonNullKey(a[1..]) by {
          forall i | 0 <= i < |a[1..]| ensures a[1..][i].Some? {
            assert a[1..][i] == a[i + 1];
          }
        }
      }
    }
  }

  lemma {:induction false} MatchesSymmetric(a: Key, b: Key)
    ensures Matches(a, b) <==> Matches(b, a)
  {
    MatchesMeaning(a, b);
    MatchesMeaning(b, a);
  }

  /** `SELECT DISTINCT`: the first occurrence of every element, in order. */
  function Distinct<T(==,!new)>(xs: seq<T>): (d: seq<T>)
    ensures forall x :: x in d <==> x in xs
    ensures forall i, j :: 0 <= i < j < |d| ==> d[i] != d[j]
  {
    if |xs| == 0 then []
    else
      var init := Distinct(xs[..|xs| - 1]);
      var last := xs[|xs| - 1];
      assert forall x :: x in xs <==> x in xs[..|xs| - 1] || x == last by {
        assert xs == xs[..|xs| - 1] + [last];
      }
      if last in init then init else init + [last]
  }

  /** `DISTINCT` leaves a sequence without repeats as it is. */
  lemma {:induction false} DistinctOfDistinct<T(!new)>(xs: seq<T>)
    requires forall i, j :: 0 <= i < j < |xs| ==> xs[i] != xs[j]
    ensures Distinct(xs) == xs
  {
    if |xs| > 0 {
      var init := xs[..|xs| - 1];
      DistinctOfDistinct(init);
      assert xs[|xs| - 1] !in init;
      assert xs == init + [xs[|xs| - 1]];
    }
  }

  /** `DISTINCT` over copies of one value is that value. */
  lemma {:induction false} DistinctRepeated<T(!new)>(xs: seq<T>, x: T)
    requires |xs| > 0 && forall i :: 0 <= i < |xs| ==> xs[i] == x
    ensures Distinct(xs) == [x]
  {
    if |xs| > 1 {
      DistinctRepeated(xs[..|xs| - 1], x);
    }
  }

  /** The `KEYS` common table expression: every distinct key of either
      snapshot, with NULL components grouped as `DISTINCT` and `UNION` do. */
  function KeyUnion(src: seq<Row>, target: seq<Row>, cols: seq<string>): (ks: seq<Key>)
    ensures forall k :: k in ks <==> k in Keys(src, cols) || k in Keys(target, cols)
    ensures forall i, j :: 0 <= i < j < |ks| ==> ks[i] != ks[j]
  {
    Distinct(Keys(src, cols) + Keys(target, cols))
  }

  /** The rows of `t` a `LEFT JOIN ... ON k = t.key` pairs with `k`. */
  function MatchingRows(t: seq<Row>, cols: seq<string>, k: Key): (m: seq<Row>)
    ensures |m| <= |t|
    ensures forall r :: r in m <==> r in t && Matches(k, KeyOf(r, cols))
    ensures |m| == 0 <==> forall r :: r in t ==> !Matches(k, KeyOf(r, cols))
  {
    if |t| == 0 then []
    else
      var init := MatchingRows(t[..|t| - 1], cols, k);
      var last := t[|t| - 1];
      assert forall r :: r in t <==> r in t[..|t| - 1] || r == last by {
        assert t == t[..|t| - 1] + [last];
      }
      if Matches(k, KeyOf(last, cols)) then init + [last] else init
  }

  /** The right side of `LEFT JOIN`: every matching row, or one row of NULLs
      (`None`) when nothing matches. */
  function LeftSide(t: seq<Row>, cols: seq<string>, k: Key): (side: seq<Option<Row>>)
    ensures |side| >= 1
  {
    var m := MatchingRows(t, cols, k);
    if |m| == 0 then [None] else seq(|m|, i requires 0 <= i < |m| => Some(m[i]))
  }

  /** A primary key (or anything stricter): no two rows share a key without
      NULL components. */
  predicate UniqueOnKey(t: seq<Row>, cols: seq<string>)
  {
    forall i, j :: 0 <= i < j < |t| && NonNullKey(KeyOf(t[i], cols)) ==> KeyOf(t[i], cols) != KeyOf(t[j], cols)
  }

  /** Under a unique key a key join finds at most one row. */
  lemma {:induction false} AtMostOneMatch(t: seq<Row>, cols: seq<string>, k: Key)
    requires UniqueOnKey(t, cols)
    ensures |MatchingRows(t, cols, k)| <= 1
    ensures |MatchingRows(t, cols, k)| == 1 <==> exists r :: r in t && Matches(k, KeyOf(r, cols))
  {
    if |t| > 0 {
      var init := t[..|t| - 1];
      assert UniqueOnKey(init, cols) by {
        forall i, j | 0 <= i < j < |init| && NonNullKey(KeyOf(init[i], cols))
          ensures KeyOf(init[i], cols) != KeyOf(init[j], cols)
        {
          assert init[i] == t[i] && init[j] == t[j];
        }
      }
      AtMostOneMatch(init, cols, k);
      var last := t[|t| - 1];
      if Matches(k, KeyOf(last, cols)) && |MatchingRows(init, cols, k)| == 1 {
        var r := MatchingRows(init, cols, k)[0];
        assert r in MatchingRows(init, cols, k);
        var i :| 0 <= i < |init| && init[i] == r;
        MatchesMeaning(k, KeyOf(r, cols));
        MatchesMeaning(k, KeyOf(last, cols));
        assert false;
      }
      if |MatchingRows(t, cols, k)| > 0 {
        assert MatchingRows(t, cols, k)[0] in MatchingRows(t, cols, k);
      }
    }
  }

  /** The single row a unique key join finds, if any. */
  function Lookup(t: seq<Row>, cols: seq<string>, k: Key): (r: Option<Row>)
    ensures r.Some? ==> r.value in t && Matches(k, KeyOf(r.value, cols))
    ensures r.None? ==> forall x :: x in t ==> !Matches(k, KeyOf(x, cols))
  {
    var m := MatchingRows(t, cols, k);
    if |m| == 0 then
      None
    else
      assert m[0] in m;
      Some(m[0])
  }

  /** Under a unique key the `LEFT JOIN` side is that single row or NULLs. */
  lemma {:induction false} LeftSideUnique(t: seq<Row>, cols: seq<string>, k: Key)
    requires UniqueOnKey(t, cols)
    ensures LeftSide(t, cols, k) == [Lookup(t, cols, k)]
  {
    AtMostOneMatch(t, cols, k);
  }

  /** Rows of `t` that have no key partner in `other`: `SELECT t.* FROM t
      LEFT JOIN other o ON <key equality> WHERE o.<first key> IS NULL`. The
      matched side's first key column cannot be NULL, because the `ON`
      condition held on it. */
  function Unmatched(t: seq<Row>, other: seq<Row>, cols: seq<string>): (u: seq<Row>)
    ensures |u| <= |t|
    ensures forall r :: r in u <==> r in t && forall o :: o in other ==> !Matches(KeyOf(r, cols), KeyOf(o, cols))
  {
    if |t| == 0 then []
    else
      var init := Unmatched(t[..|t| - 1], other, cols);
      var last := t[|t| - 1];
      assert forall r :: r in t <==> r in t[..|t| - 1] || r == last by {
        assert t == t[..|t| - 1] + [last];
      }
      var hit := MatchingRows(other, cols, KeyOf(last, cols));
      assert |hit| == 0 <==> forall o :: o in other ==> !Matches(KeyOf(last, cols), KeyOf(o, cols)) by {
        if |hit| > 0 {
          assert hit[0] in hit;
        }
      }
      if |hit| == 0 then init + [last] else init
  }

  /** A source row with a NULL key component never finds a partner. */
  lemma {:induction false} NullKeyUnmatched(r: Row, other: seq<Row>, cols: seq<string>)
    requires !NonNullKey(KeyOf(r, cols))
    ensures forall o :: o in other ==> !Matches(KeyOf(r, cols), KeyOf(o, cols))
  {
    forall o | o in other ensures !Matches(KeyOf(r, cols), KeyOf(o, cols)) {
      MatchesMeaning(KeyOf(r, cols), KeyOf(o, cols));
    }
  }

  /** The two directions of an anti-join never pair up: no unmatched row
      of `a` matches an unmatched row of `b`. */
  lemma {:induction false} UnmatchedDisjoint(a: seq<Row>, b: seq<Row>, cols: seq<string>)
    ensures forall x, y :: x in Unmatched(a, b, cols) && y in Unmatched(b, a, cols) ==>
      !Matches(KeyOf(x, cols), KeyOf(y, cols))
  {
  }
}
