/** The column profiler (`analyze_migration_full`): for one table pair
    `src_<t>` / `new_<t>` and a list of join keys it builds the join
    clause, the orphan and extra-row anti-joins, the orphan rate, the
    per-column mismatch counts over the inner join and the mismatch summary;
    `create_global_reporting_views` then adds the count, missing-row and
    amount-difference views. */
module Profiler {
  import opened Sql
  import opened Text
  import opened Table
  import opened Join
  import opened Schema

  // ---------------------------------------------------------------------
  // The join clause

  const AndSep: string := " AND "

  const Open: string := "s.\""
  const Mid: string := "\" = n.\""
  const Quote: string := "\""

  /** `s."k" = n."k"`. */
  function Conjunct(k: string): string
  {
    Open + k + Mid + k + Quote
  }

  function Conjuncts(keys: seq<string>): (cs: seq<string>)
    ensures |cs| == |keys|
    ensures forall i :: 0 <= i < |keys| ==> cs[i] == Conjunct(keys[i])
  {
    seq(|keys|, i requires 0 <= i < |keys| => Conjunct(keys[i]))
  }

  /** `" AND ".join(...)` over the conjuncts, in key order. */
  function JoinClause(keys: seq<string>): string
  {
    Text.Join(Conjuncts(keys), AndSep)
  }

  /** The longest prefix without a double quote. */
  function TakeUntilQuote(s: string): (r: string)
    ensures |r| <= |s| && s[..|r|] == r
    ensures forall i :: 0 <= i < |r| ==> r[i] != '"'
    ensures |r| < |s| ==> s[|r|] == '"'
  {
    if |s| == 0 || s[0] == '"' then []
    else [s[0]] + TakeUntilQuote(s[1..])
  }

  /** Reads one conjunct `s."k" = n."k"` off the front of `s`, returning the
      key and what follows. */
  function ParseConjunct(s: string): (r: Option<(string, string)>)
    ensures r.Some? ==> |r.value.1| < |s|
  {
    if !StartsWith(s, Open) then None
    else
      var body := s[|Open|..];
      var k := TakeUntilQuote(body);
      var tail := body[|k|..];
      var close := Mid + k + Quote;
      if StartsWith(tail, close) then Some((k, tail[|close|..])) else None
  }

  /** Reads a join clause back into its key list. */
  function ParseClause(s: string): Option<seq<string>>
    decreases |s|
  {
    match ParseConjunct(s)
    case None => None
    case Some((k, rest)) =>
      if rest == "" then Some([k])
      else if StartsWith(rest, AndSep) then
        match ParseClause(rest[|AndSep|..])
        case None => None
        case Some(ks) => Some([k] + ks)
      else None
  }

  predicate QuoteFree(k: string)
  {
    forall i :: 0 <= i < |k| ==> k[i] != '"'
  }

  lemma {:induction false} TakeUntilQuoteOf(k: string, t: string)
    requires QuoteFree(k)
    requires |t| > 0 && t[0] == '"'
    ensures TakeUntilQuote(k + t) == k
  {
    if |k| > 0 {
      assert (k + t)[1..] == k[1..] + t;
      TakeUntilQuoteOf(k[1..], t);
      assert k == [k[0]] + k[1..];
    }
  }

  lemma {:induction false} Split2(a: string, b: string)
    ensures (a + b)[..|a|] == a && (a + b)[|a|..] == b
  {
  }

  lemma {:induction false} ParseConjunctOf(k: string, rest: string)
    requires QuoteFree(k)
    ensures ParseConjunct(Conjunct(k) + rest) == Some((k, rest))
  {
    var close := Mid + k + Quote;
    var tail := close + rest;
    var body := k + tail;
    var s := Conjunct(k) + rest;
    assert s == Open + body;
    Split2(Open, body);
    TakeUntilQuoteOf(k, tail);
    Split2(k, tail);
    Split2(close, rest);
  }

  lemma {:induction false} ParseLastConjunct(k: string)
    requires QuoteFree(k)
    ensures ParseClause(Conjunct(k)) == Some([k])
  {
    ParseConjunctOf(k, "");
    assert Conjunct(k) + "" == Conjunct(k);
  }

  lemma {:induction false} ParseNextConjunct(k: string, t: string)
    requires QuoteFree(k)
    ensures ParseClause(Conjunct(k) + AndSep + t) ==
      match ParseClause(t) case None => None case Some(ks) => Some([k] + ks)
  {
    var rest := AndSep + t;
    assert Conjunct(k) + AndSep + t == Conjunct(k) + rest;
    ParseConjunctOf(k, rest);
    assert rest[|AndSep|..] == t;
  }

  /** The clause spells out the key list, in order: reading it back gives
      the keys it was built from (join keys carry no double quote). */
  lemma {:induction false} JoinClauseRoundTrip(keys: seq<string>)
    requires |keys| > 0
    requires forall i :: 0 <= i < |keys| ==> QuoteFree(keys[i])
    ensures ParseClause(JoinClause(keys)) == Some(keys)
  {
    var cs := Conjuncts(keys);
    if |keys| == 1 {
      assert JoinClause(keys) == Conjunct(keys[0]);
      ParseLastConjunct(keys[0]);
      assert keys == [keys[0]];
    } else {
      var tail := keys[1..];
      JoinClauseRoundTrip(tail);
      assert cs[1..] == Conjuncts(tail);
      assert Text.Join(cs, AndSep) == cs[0] + AndSep + Text.Join(cs[1..], AndSep);
      ParseNextConjunct(keys[0], JoinClause(tail));
      assert keys == [keys[0]] + tail;
    }
  }

  /** What the clause evaluates to on a pair of rows: the `=` of every key,
      joined by `AND` from the left. */
  function ClauseValue(keys: seq<string>, s: Row, n: Row): Bool3
  {
    if |keys| == 0 then True3
    else if |keys| == 1 then Eq3(Get(s, keys[0]), Get(n, keys[0]))
    else And3(ClauseValue(keys[..|keys| - 1], s, n), Eq3(Get(s, keys[|keys| - 1]), Get(n, keys[|keys| - 1])))
  }

  lemma {:induction false} ClauseValueHolds(keys: seq<string>, s: Row, n: Row)
    ensures Holds(ClauseValue(keys, s, n)) <==>
      forall i :: 0 <= i < |keys| ==> Get(s, keys[i]).Some? && Get(s, keys[i]) == Get(n, keys[i])
  {
    if |keys| > 1 {
      ClauseValueHolds(keys[..|keys| - 1], s, n);
    }
  }

  /** The clause keeps a pair exactly when the rows agree, without NULL, on
      every key: it is the key join of the rest of the model. */
  lemma {:induction false} ClauseMeansMatch(keys: seq<string>, s: Row, n: Row)
    ensures Holds(ClauseValue(keys, s, n)) <==> Matches(KeyOf(s, keys), KeyOf(n, keys))
  {
    ClauseValueHolds(keys, s, n);
    MatchesMeaning(KeyOf(s, keys), KeyOf(n, keys));
    if Holds(ClauseValue(keys, s, n)) {
      assert KeyOf(s, keys) == KeyOf(n, keys);
    }
  }

  // ---------------------------------------------------------------------
  // Orphans and extra rows

  /** `WHERE n."k0" IS NULL`, on the `LEFT JOIN` rows: the right side is
      all NULL or its first key is NULL. */
  function RightKeyNull(k0: string): Pair -> bool
  {
    (p: Pair) => p.right.None? || Get(p.right.value, k0).None?
  }

  /** The left side of a joined row; all NULL reads as the empty row. */
  function LeftRow(p: Pair): Row
  {
    if p.left.Some? then p.left.value else map[]
  }

  /** `SELECT s.*`: the left side of every joined row, order kept. */
  function LeftValues(ps: seq<Pair>): (rows: seq<Row>)
    ensures |rows| == |ps|
    ensures forall i :: 0 <= i < |ps| && ps[i].left.Some? ==> rows[i] == ps[i].left.value
  {
    seq(|ps|, i requires 0 <= i < |ps| => LeftRow(ps[i]))
  }

  /** `SELECT l.* FROM l LEFT JOIN r ON <clause> WHERE r."k0" IS NULL`. */
  function AntiJoin(l: seq<Row>, r: seq<Row>, keys: seq<string>): seq<Row>
    requires |keys| > 0
  {
    LeftValues(Where(LeftPairs(l, r, keys), RightKeyNull(keys[0])))
  }

  lemma {:induction false} WhereAppend(a: seq<Pair>, b: seq<Pair>, cond: Pair -> bool)
    ensures Where(a + b, cond) == Where(a, cond) + Where(b, cond)
    decreases |b|
  {
    if |b| > 0 {
      var b0 := b[..|b| - 1];
      assert (a + b)[..|a + b| - 1] == a + b0;
      assert (a + b)[|a + b| - 1] == b[|b| - 1];
      WhereAppend(a, b0, cond);
    } else {
      assert a + b == a;
    }
  }

  /** A filter nothing passes leaves nothing. */
  lemma {:induction false} WhereNone(ps: seq<Pair>, cond: Pair -> bool)
    requires forall i :: 0 <= i < |ps| ==> !cond(ps[i])
    ensures Where(ps, cond) == []
  {
    if |ps| > 0 {
      WhereNone(ps[..|ps| - 1], cond);
    }
  }

  /** A left row nothing matches survives the `IS NULL` filter once,
      beside NULLs. */
  lemma {:induction false} UnmatchedRowSurvives(a: Row, r: seq<Row>, keys: seq<string>)
    requires |keys| > 0
    requires |MatchingRows(r, keys, KeyOf(a, keys))| == 0
    ensures Where(RowPairs(a, r, keys), RightKeyNull(keys[0])) == [Pair(Some(a), None)]
  {
    var k := KeyOf(a, keys);
    var ps := RowPairs(a, r, keys);
    assert LeftSide(r, keys, k) == [None];
    assert ps == [Pair(Some(a), None)];
    assert ps[..0] == [];
  }

  /** A left row with a partner leaves nothing: every partner has a
      non-NULL first key. */
  lemma {:induction false} MatchedRowDropped(a: Row, r: seq<Row>, keys: seq<string>)
    requires |keys| > 0
    requires |MatchingRows(r, keys, KeyOf(a, keys))| > 0
    ensures Where(RowPairs(a, r, keys), RightKeyNull(keys[0])) == []
  {
    var k := KeyOf(a, keys);
    var ps := RowPairs(a, r, keys);
    var m := MatchingRows(r, keys, k);
    assert LeftSide(r, keys, k) == seq(|m|, i requires 0 <= i < |m| => Some(m[i]));
    forall j | 0 <= j < |ps| ensures !RightKeyNull(keys[0])(ps[j]) {
      assert ps[j] in ps;
      assert ps[j].right in LeftSide(r, keys, k);
      var i :| 0 <= i < |m| && ps[j].right == Some(m[i]);
      assert m[i] in m;
      MatchesMeaning(k, KeyOf(m[i], keys));
      assert KeyOf(m[i], keys)[0] == Get(m[i], keys[0]);
    }
    WhereNone(ps, RightKeyNull(keys[0]));
  }

  lemma {:induction false} LeftValuesAppend(a: seq<Pair>, b: seq<Pair>)
    ensures LeftValues(a + b) == LeftValues(a) + LeftValues(b)
  {
  }

  /** The anti-join of `l` is that of all but its last row followed by
      what the last row leaves. */
  lemma {:induction false} AntiJoinSplit(l: seq<Row>, r: seq<Row>, keys: seq<string>)
    requires |keys| > 0 && |l| > 0
    ensures AntiJoin(l, r, keys) == AntiJoin(l[..|l| - 1], r, keys) +
      LeftValues(Where(RowPairs(l[|l| - 1], r, keys), RightKeyNull(keys[0])))
  {
    var init := l[..|l| - 1];
    var last := l[|l| - 1];
    var cond := RightKeyNull(keys[0]);
    assert LeftPairs(l, r, keys) == LeftPairs(init, r, keys) + RowPairs(last, r, keys);
    WhereAppend(LeftPairs(init, r, keys), RowPairs(last, r, keys), cond);
    LeftValuesAppend(Where(LeftPairs(init, r, keys), cond), Where(RowPairs(last, r, keys), cond));
  }

  /** The anti-join of `l` extends that of all but its last row by the
      last row exactly when nothing matches it. */
  lemma {:induction false} AntiJoinLast(l: seq<Row>, r: seq<Row>, keys: seq<string>)
    requires |keys| > 0 && |l| > 0
    ensures AntiJoin(l, r, keys) == AntiJoin(l[..|l| - 1], r, keys) +
      (if |MatchingRows(r, keys, KeyOf(l[|l| - 1], keys))| == 0 then [l[|l| - 1]] else [])
  {
    var last := l[|l| - 1];
    AntiJoinSplit(l, r, keys);
    if |MatchingRows(r, keys, KeyOf(last, keys))| == 0 {
      UnmatchedRowSurvives(last, r, keys);
      assert LeftValues([Pair(Some(last), None)]) == [last];
    } else {
      MatchedRowDropped(last, r, keys);
    }
  }

  /** The anti-join keeps exactly the rows with no partner, each once and
      in order: it is the model's `Unmatched`. */
  lemma {:induction false} AntiJoinIsUnmatched(l: seq<Row>, r: seq<Row>, keys: seq<string>)
    requires |keys| > 0
    ensures AntiJoin(l, r, keys) == Unmatched(l, r, keys)
  {
    if |l| > 0 {
      AntiJoinIsUnmatched(l[..|l| - 1], r, keys);
      AntiJoinLast(l, r, keys);
    }
  }

  /** `<t>_orphans`: source rows with no target row equal on every key. */
  function Orphans(src: seq<Row>, target: seq<Row>, keys: seq<string>): seq<Row>
    requires |keys| > 0
  {
    AntiJoin(src, target, keys)
  }

  /** `<t>_extra_rows`: the same query with the roles swapped. */
  function Extras(src: seq<Row>, target: seq<Row>, keys: seq<string>): seq<Row>
    requires |keys| > 0
  {
    AntiJoin(target, src, keys)
  }

  /** Orphans and extras are the unmatched rows of each side; they never
      match each other; swapping the snapshots swaps them. */
  lemma {:induction false} OrphansAndExtras(src: seq<Row>, target: seq<Row>, keys: seq<string>)
    requires |keys| > 0
    ensures forall x :: x in Orphans(src, target, keys) <==>
      x in src && forall o :: o in target ==> !Matches(KeyOf(x, keys), KeyOf(o, keys))
    ensures forall y :: y in Extras(src, target, keys) <==>
      y in target && forall o :: o in src ==> !Matches(KeyOf(y, keys), KeyOf(o, keys))
    ensures forall x, y :: x in Orphans(src, target, keys) && y in Extras(src, target, keys) ==>
      !Matches(KeyOf(x, keys), KeyOf(y, keys))
    ensures Orphans(target, src, keys) == Extras(src, target, keys)
    ensures |Orphans(src, target, keys)| <= |src| && |Extras(src, target, keys)| <= |target|
  {
    AntiJoinIsUnmatched(src, target, keys);
    AntiJoinIsUnmatched(target, src, keys);
    UnmatchedDisjoint(src, target, keys);
  }

  /** A row whose key has a NULL is both an orphan and, on the other side,
      an extra row: `vw_missing_rows` lists the same key as missing and as
      extra. */
  lemma {:induction false} NullKeyIsBothOrphanAndExtra(s: Row, n: Row, keys: seq<string>)
    requires |keys| > 0
    requires Get(s, keys[0]).None? && Get(n, keys[0]).None?
    ensures Orphans([s], [n], keys) == [s]
    ensures Extras([s], [n], keys) == [n]
  {
    AntiJoinIsUnmatched([s], [n], keys);
    AntiJoinIsUnmatched([n], [s], keys);
    MatchesMeaning(KeyOf(s, keys), KeyOf(n, keys));
    MatchesMeaning(KeyOf(n, keys), KeyOf(s, keys));
    assert [s][..0] == [] && [n][..0] == [];
  }

  // ---------------------------------------------------------------------
  // Orphan rate

  /** `part / whole * 100`, and 0 for an empty whole: the orphan rate and
      the per-column error percentage. */
  function Percent(orphans: nat, total: nat): (pct: real)
    ensures pct >= 0.0
    ensures pct == 0.0 <==> orphans == 0 || total == 0
  {
    if total > 0 then orphans as real / total as real * 100.0 else 0.0
  }

  /** A part no larger than the whole is at most 100 percent of it, and
      exactly 100 when it is all of it. */
  lemma {:induction false} PercentBounds(o: nat, t: nat)
    requires o <= t
    ensures Percent(o, t) <= 100.0
    ensures t > 0 ==> (Percent(o, t) == 100.0 <==> o == t)
  {
    if t > 0 {
      var q := o as real / t as real;
      assert q * t as real == o as real;
      assert (1.0 - q) * t as real == t as real - o as real;
      if o == t {
        assert q == 1.0;
      }
      if q == 1.0 {
        assert o as real == t as real;
      }
    }
  }

  /** The rate of the profiler's own orphan table lies in [0, 100] and is
      100 exactly when no source row has a partner. */
  lemma {:induction false} OrphanRateBounded(src: seq<Row>, target: seq<Row>, keys: seq<string>)
    requires |keys| > 0
    ensures Percent(|Orphans(src, target, keys)|, |src|) <= 100.0
    ensures |src| > 0 ==>
      (Percent(|Orphans(src, target, keys)|, |src|) == 100.0 <==> |Orphans(src, target, keys)| == |src|)
  {
    AntiJoinIsUnmatched(src, target, keys);
    PercentBounds(|Orphans(src, target, keys)|, |src|);
  }

  // ---------------------------------------------------------------------
  // Compared columns

  /** A column name the `NOT IN (...)` list removes: the upper- or the
      lower-case spelling of a join key. */
  predicate Excluded(c: string, keys: seq<string>)
  {
    exists k :: k in keys && (c == Upper(k) || c == Lower(k))
  }

  /** The source table's columns minus the excluded key spellings, in
      catalogue order. */
  function ComparedColumns(cols: seq<string>, keys: seq<string>): (cs: seq<string>)
    ensures |cs| <= |cols|
    ensures forall c :: c in cs <==> c in cols && !Excluded(c, keys)
  {
    if |cols| == 0 then []
    else
      var init := cols[..|cols| - 1];
      var last := cols[|cols| - 1];
      assert forall c :: c in cols <==> c in init || c == last by {
        assert cols == init + [last];
      }
      ComparedColumns(init, keys) + (if Excluded(last, keys) then [] else [last])
  }

  /** A key spelled in one case throughout is never compared. */
  lemma {:induction false} SingleCaseKeysNotCompared(cols: seq<string>, keys: seq<string>)
    requires forall k :: k in keys ==> k == Upper(k) || k == Lower(k)
    ensures forall k :: k in keys ==> k !in ComparedColumns(cols, keys)
  {
  }

  /** A mixed-case key escapes the exclusion list and is compared against
      itself as if it were a data column. */
  lemma {:induction false} MixedCaseKeyCompared()
    ensures "Year" in ComparedColumns(["Year"], ["Year"])
  {
    assert Upper("Year") == "YEAR";
    assert Lower("Year") == "year";
    assert !Excluded("Year", ["Year"]);
  }

  // ---------------------------------------------------------------------
  // Mismatch counts

  function RightRow(p: Pair): Row
  {
    if p.right.Some? then p.right.value else map[]
  }

  /** `s."c" IS DISTINCT FROM n."c"`. */
  function DiffersOn(c: string): Pair -> bool
  {
    (p: Pair) => IsDistinctFrom(Get(LeftRow(p), c), Get(RightRow(p), c))
  }

  /** `CASE WHEN ... THEN 1 ELSE 0 END`, one value per joined row. */
  function DistinctFlags(ps: seq<Pair>, c: string): (fs: seq<Option<int>>)
    ensures |fs| == |ps|
    ensures forall i :: 0 <= i < |ps| ==> fs[i] == Some(if DiffersOn(c)(ps[i]) then 1 else 0)
  {
    seq(|ps|, i requires 0 <= i < |ps| => Some(if DiffersOn(c)(ps[i]) then 1 else 0))
  }

  /** `SUM(CASE ...)` over the inner join: NULL when the join is empty. */
  function ErrorCount(ps: seq<Pair>, c: string): Option<int>
  {
    SumSkipNull(DistinctFlags(ps, c))
  }

  lemma {:induction false} DistinctFlagsSnoc(ps: seq<Pair>, c: string)
    requires |ps| > 0
    ensures DistinctFlags(ps, c)[..|ps| - 1] == DistinctFlags(ps[..|ps| - 1], c)
  {
  }

  /** The sum of flags counts exactly the joined rows that differ on the
      column, and is NULL only for an empty join. */
  lemma {:induction false} ErrorCountIsCount(ps: seq<Pair>, c: string)
    ensures ErrorCount(ps, c).None? <==> |ps| == 0
    ensures ErrorCount(ps, c).Some? ==> ErrorCount(ps, c).value == |Where(ps, DiffersOn(c))|
  {
    if |ps| > 0 {
      var init := ps[..|ps| - 1];
      ErrorCountIsCount(init, c);
      DistinctFlagsSnoc(ps, c);
    }
  }

  /** A column has errors exactly when some joined row differs on it. */
  lemma {:induction false} ErrorCountPositive(ps: seq<Pair>, c: string)
    ensures (ErrorCount(ps, c).Some? && ErrorCount(ps, c).value > 0) <==>
      exists p :: p in ps && DiffersOn(c)(p)
  {
    ErrorCountIsCount(ps, c);
    var w := Where(ps, DiffersOn(c));
    if |w| > 0 {
      assert w[0] in w;
    }
  }

  /** A source row contributes exactly one `LEFT JOIN` row when the target
      is unique on the key. */
  lemma {:induction false} LeftPairsUnique(l: seq<Row>, r: seq<Row>, keys: seq<string>)
    requires UniqueOnKey(r, keys)
    ensures |LeftPairs(l, r, keys)| == |l|
  {
    if |l| > 0 {
      var last := l[|l| - 1];
      LeftPairsUnique(l[..|l| - 1], r, keys);
      LeftSideUnique(r, keys, KeyOf(last, keys));
      assert |RowPairs(last, r, keys)| == 1;
    }
  }

  /** Against a unique target the inner join has no more rows than the
      source, so no column can have more errors than the source has rows. */
  lemma {:induction false} ErrorCountBounded(src: seq<Row>, target: seq<Row>, keys: seq<string>, c: string)
    requires UniqueOnKey(target, keys)
    ensures ErrorCount(InnerJoin(src, target, keys), c).Some? ==>
      ErrorCount(InnerJoin(src, target, keys), c).value <= |src|
  {
    var ps := InnerJoin(src, target, keys);
    LeftPairsUnique(src, target, keys);
    ErrorCountIsCount(ps, c);
  }

  lemma {:induction false} MatchesTwice(a: Row, b: Row, keys: seq<string>)
    requires NonNullKey(KeyOf(a, keys)) && KeyOf(a, keys) == KeyOf(b, keys)
    ensures MatchingRows([b, b], keys, KeyOf(a, keys)) == [b, b]
  {
    MatchesMeaning(KeyOf(a, keys), KeyOf(b, keys));
    assert [b, b][..1] == [b] && [b][..0] == [];
  }

  lemma {:induction false} PairsTwice(a: Row, b: Row, keys: seq<string>)
    requires NonNullKey(KeyOf(a, keys)) && KeyOf(a, keys) == KeyOf(b, keys)
    ensures LeftPairs([a], [b, b], keys) == [Pair(Some(a), Some(b)), Pair(Some(a), Some(b))]
  {
    MatchesTwice(a, b, keys);
    assert RowPairs(a, [b, b], keys) == [Pair(Some(a), Some(b)), Pair(Some(a), Some(b))];
    assert [a][..0] == [];
  }

  /** A source row joined to two copies of its partner yields that pair
      twice. */
  lemma {:induction false} DuplicateTargetJoin(a: Row, b: Row, keys: seq<string>)
    requires NonNullKey(KeyOf(a, keys)) && KeyOf(a, keys) == KeyOf(b, keys)
    ensures InnerJoin([a], [b, b], keys) == [Pair(Some(a), Some(b)), Pair(Some(a), Some(b))]
  {
    var q := Pair(Some(a), Some(b));
    PairsTwice(a, b, keys);
    assert [q, q][..1] == [q] && [q][..0] == [];
  }

  lemma {:induction false} TwiceDiffers(q: Pair, c: string)
    requires DiffersOn(c)(q)
    ensures ErrorCount([q, q], c) == Some(2)
  {
    ErrorCountIsCount([q, q], c);
    assert [q, q][..1] == [q] && [q][..0] == [];
  }

  /** With duplicate keys in the target a source row is counted once per
      partner: one differing source row against two target copies counts
      two errors, 200 percent of a one-row source. */
  lemma {:induction false} DuplicateTargetDoublesErrors(a: Row, b: Row, keys: seq<string>, c: string)
    requires NonNullKey(KeyOf(a, keys)) && KeyOf(a, keys) == KeyOf(b, keys)
    requires IsDistinctFrom(Get(a, c), Get(b, c))
    ensures ErrorCount(InnerJoin([a], [b, b], keys), c) == Some(2)
    ensures Percent(2, 1) == 200.0
  {
    DuplicateTargetJoin(a, b, keys);
    TwiceDiffers(Pair(Some(a), Some(b)), c);
  }

  // ---------------------------------------------------------------------
  // Mismatch summary

  /** One row of `<t>_mismatch_summary`. */
  datatype SummaryRow = SummaryRow(field: string, errors: int, pct: real)

  /** The per-column counts that survive `error_count > 0`, in column
      order. An empty join sums to NULL and is dropped with the zeros. */
  function ErrorRows(ps: seq<Pair>, cols: seq<string>, total: nat): (rows: seq<SummaryRow>)
    ensures forall row :: row in rows <==>
      row.field in cols && ErrorCount(ps, row.field) == Some(row.errors) && row.errors > 0
      && row.pct == Percent(row.errors, total)
  {
    if |cols| == 0 then []
    else
      var init := cols[..|cols| - 1];
      var c := cols[|cols| - 1];
      assert forall x :: x in cols <==> x in init || x == c by {
        assert cols == init + [c];
      }
      var e := ErrorCount(ps, c);
      ErrorRows(ps, init, total)
        + (if e.Some? && e.value > 0 then [SummaryRow(c, e.value, Percent(e.value, total))] else [])
  }

  /** `sort_values('error_count', ascending=False)`. */
  predicate SortedByErrors(s: seq<SummaryRow>)
  {
    forall i, j :: 0 <= i < j < |s| ==> s[i].errors >= s[j].errors
  }

  /** The order is on the count alone and the sort is not stable, so any
      arrangement sorted by count is a possible summary. */
  predicate ErrorRanking(rows: seq<SummaryRow>, out: seq<SummaryRow>)
  {
    multiset(out) == multiset(rows) && SortedByErrors(out)
  }

  function InsertByErrors(x: SummaryRow, s: seq<SummaryRow>): (r: seq<SummaryRow>)
    ensures multiset(r) == multiset(s) + multiset{x}
  {
    if |s| == 0 then [x]
    else if x.errors >= s[0].errors then
      assert multiset([x] + s) == multiset{x} + multiset(s);
      [x] + s
    else
      assert s == [s[0]] + s[1..];
      [s[0]] + InsertByErrors(x, s[1..])
  }

  lemma {:induction false} SortedByErrorsTail(s: seq<SummaryRow>)
    requires SortedByErrors(s) && |s| > 0
    ensures SortedByErrors(s[1..])
  {
    forall i, j | 0 <= i < j < |s[1..]| ensures s[1..][i].errors >= s[1..][j].errors {
      assert s[1..][i] == s[i + 1] && s[1..][j] == s[j + 1];
    }
  }

  lemma {:induction false} SortedByErrorsCons(x: SummaryRow, s: seq<SummaryRow>)
    requires SortedByErrors(s)
    requires forall y :: y in s ==> x.errors >= y.errors
    ensures SortedByErrors([x] + s)
  {
    var r := [x] + s;
    forall i, j | 0 <= i < j < |r| ensures r[i].errors >= r[j].errors {
      assert r[j] == s[j - 1];
      if i > 0 {
        assert r[i] == s[i - 1];
      }
    }
  }

  lemma {:induction false} InsertByErrorsSorted(x: SummaryRow, s: seq<SummaryRow>)
    requires SortedByErrors(s)
    ensures SortedByErrors(InsertByErrors(x, s))
  {
    if |s| > 0 {
      if x.errors >= s[0].errors {
        SortedByErrorsCons(x, s);
      } else {
        var tail := s[1..];
        SortedByErrorsTail(s);
        InsertByErrorsSorted(x, tail);
        var rest := InsertByErrors(x, tail);
        assert s == [s[0]] + tail;
        forall y | y in rest ensures s[0].errors >= y.errors {
          assert y in multiset(rest);
          if y != x {
            assert y in multiset(tail);
            var j :| 0 <= j < |tail| && tail[j] == y;
            assert s[j + 1] == y;
          }
        }
        SortedByErrorsCons(s[0], rest);
      }
    }
  }

  /** Insertion sort by descending count: one admissible ranking. */
  function SortByErrors(rows: seq<SummaryRow>): (r: seq<SummaryRow>)
    ensures ErrorRanking(rows, r)
  {
    if |rows| == 0 then []
    else
      assert rows == rows[..|rows| - 1] + [rows[|rows| - 1]];
      var init := SortByErrors(rows[..|rows| - 1]);
      InsertByErrorsSorted(rows[|rows| - 1], init);
      InsertByErrors(rows[|rows| - 1], init)
  }

  /** The summary holds exactly the compared columns some joined row
      differs on, each with its count and its share of the source rows. */
  lemma {:induction false} SummaryMeaning(ps: seq<Pair>, cols: seq<string>, total: nat, summary: seq<SummaryRow>)
    requires ErrorRanking(ErrorRows(ps, cols, total), summary)
    ensures forall row :: row in summary ==>
      row.field in cols && row.errors > 0 && row.pct == Percent(row.errors, total)
      && ErrorCount(ps, row.field) == Some(row.errors)
    ensures forall c :: c in cols ==>
      ((exists row :: row in summary && row.field == c) <==> exists p :: p in ps && DiffersOn(c)(p))
  {
    var rows := ErrorRows(ps, cols, total);
    assert forall row :: row in summary <==> row in rows by {
      forall row ensures row in summary <==> row in rows {
        assert row in summary <==> row in multiset(summary);
        assert row in rows <==> row in multiset(rows);
      }
    }
    forall c | c in cols
      ensures (exists row :: row in summary && row.field == c) <==> exists p :: p in ps && DiffersOn(c)(p)
    {
      ErrorCountPositive(ps, c);
      var e := ErrorCount(ps, c);
      if e.Some? && e.value > 0 {
        assert SummaryRow(c, e.value, Percent(e.value, total)) in rows;
      }
    }
  }

  /** Against a unique target every reported percentage lies in (0, 100]. */
  lemma {:induction false} SummaryPctBounded(src: seq<Row>, target: seq<Row>, keys: seq<string>,
                          cols: seq<string>, summary: seq<SummaryRow>)
    requires UniqueOnKey(target, keys)
    requires ErrorRanking(ErrorRows(InnerJoin(src, target, keys), cols, |src|), summary)
    ensures forall row :: row in summary ==> 0.0 < row.pct <= 100.0
  {
    var ps := InnerJoin(src, target, keys);
    SummaryMeaning(ps, cols, |src|, summary);
    forall row | row in summary ensures 0.0 < row.pct <= 100.0 {
      ErrorCountBounded(src, target, keys, row.field);
      PercentBounds(row.errors, |src|);
    }
  }

  // ---------------------------------------------------------------------
  // Mismatch view

  function Fields(summary: seq<SummaryRow>): (fs: seq<string>)
    ensures |fs| == |summary|
    ensures forall i :: 0 <= i < |summary| ==> fs[i] == summary[i].field
  {
    seq(|summary|, i requires 0 <= i < |summary| => summary[i].field)
  }

  /** The `OR` of `IS DISTINCT FROM` over the summary's columns. */
  function AnyDiffers(cs: seq<string>): Pair -> bool
  {
    (p: Pair) => exists c :: c in cs && DiffersOn(c)(p)
  }

  /** `v_<t>_mismatches`: created only when the summary is non-empty; it
      keeps the joined rows that differ on a summary column. */
  function MismatchView(ps: seq<Pair>, summary: seq<SummaryRow>): Option<seq<Pair>>
  {
    if |summary| == 0 then None else Some(Where(ps, AnyDiffers(Fields(summary))))
  }

  lemma {:induction false} FieldsMembers(summary: seq<SummaryRow>)
    ensures forall c :: c in Fields(summary) <==> exists row :: row in summary && row.field == c
  {
    var fs := Fields(summary);
    forall c ensures c in fs <==> exists row :: row in summary && row.field == c {
      if c in fs {
        var i :| 0 <= i < |fs| && fs[i] == c;
        assert summary[i] in summary;
      }
      if exists row :: row in summary && row.field == c {
        var row :| row in summary && row.field == c;
        var i :| 0 <= i < |summary| && summary[i] == row;
        assert fs[i] == c;
      }
    }
  }

  /** The summary's columns are the compared columns some joined row
      differs on. */
  lemma {:induction false} SummaryColumns(ps: seq<Pair>, cols: seq<string>, total: nat, summary: seq<SummaryRow>)
    requires ErrorRanking(ErrorRows(ps, cols, total), summary)
    ensures forall c :: c in Fields(summary) <==> c in cols && exists p :: p in ps && DiffersOn(c)(p)
  {
    SummaryMeaning(ps, cols, total, summary);
    FieldsMembers(summary);
  }

  /** Filtering on the summary's columns loses nothing: the view exists
      exactly when some joined row differs on some compared column, and it
      holds exactly those rows. */
  lemma {:induction false} MismatchViewComplete(ps: seq<Pair>, cols: seq<string>, total: nat, summary: seq<SummaryRow>)
    requires ErrorRanking(ErrorRows(ps, cols, total), summary)
    ensures MismatchView(ps, summary).None? <==>
      forall p, c :: p in ps && c in cols ==> !DiffersOn(c)(p)
    ensures MismatchView(ps, summary).Some? ==>
      forall p :: p in MismatchView(ps, summary).value <==>
        p in ps && exists c :: c in cols && DiffersOn(c)(p)
  {
    var fs := Fields(summary);
    SummaryColumns(ps, cols, total, summary);
    if |summary| > 0 {
      assert fs[0] in fs;
    }
    if exists p, c :: p in ps && c in cols && DiffersOn(c)(p) {
      var p, c :| p in ps && c in cols && DiffersOn(c)(p);
      assert c in fs;
    }
  }

  // ---------------------------------------------------------------------
  // One table pair

  /** What `analyze_migration_full` leaves behind for one table pair. */
  datatype Analysis = Analysis(orphans: seq<Row>, extras: seq<Row>, orphanRate: real,
                               summary: seq<SummaryRow>, mismatches: Option<seq<Pair>>)

  /** The whole analysis. `catalog` is the source table's column list and
      `ranked` the order the unstable sort happened to produce. With no
      join keys the key lookup `join_keys[0]` fails and nothing is built. */
  function Analyze(src: seq<Row>, target: seq<Row>, keys: seq<string>,
                   catalog: seq<string>, ranked: seq<SummaryRow>): (a: Option<Analysis>)
    requires |keys| > 0 ==>
      ErrorRanking(ErrorRows(InnerJoin(src, target, keys), ComparedColumns(catalog, keys), |src|), ranked)
    ensures a.None? <==> |keys| == 0
  {
    if |keys| == 0 then None
    else
      var orphans := Orphans(src, target, keys);
      var ps := InnerJoin(src, target, keys);
      Some(Analysis(orphans, Extras(src, target, keys), Percent(|orphans|, |src|),
                    ranked, MismatchView(ps, ranked)))
  }

  /** What the analysis promises: orphans and extras are the rows without
      a partner on the other side, the rate is a percentage, and the
      mismatch view exists exactly when a compared column differs on a
      joined row, holding exactly such rows. */
  lemma {:induction false} AnalyzeMeaning(src: seq<Row>, target: seq<Row>, keys: seq<string>,
                       catalog: seq<string>, ranked: seq<SummaryRow>)
    requires |keys| > 0
    requires ErrorRanking(ErrorRows(InnerJoin(src, target, keys), ComparedColumns(catalog, keys), |src|), ranked)
    ensures var a := Analyze(src, target, keys, catalog, ranked).value;
      && (forall x :: x in a.orphans <==>
            x in src && forall o :: o in target ==> !Matches(KeyOf(x, keys), KeyOf(o, keys)))
      && (forall y :: y in a.extras <==>
            y in target && forall o :: o in src ==> !Matches(KeyOf(y, keys), KeyOf(o, keys)))
      && 0.0 <= a.orphanRate <= 100.0
      && (a.mismatches.None? <==>
            forall p, c :: p in InnerJoin(src, target, keys) && c in ComparedColumns(catalog, keys) ==> !DiffersOn(c)(p))
  {
    OrphansAndExtras(src, target, keys);
    OrphanRateBounded(src, target, keys);
    MismatchViewComplete(InnerJoin(src, target, keys), ComparedColumns(catalog, keys), |src|, ranked);
  }

  // ---------------------------------------------------------------------
  // Global reporting views

  /** One row of `vw_source_counts`. */
  datatype CountRow = CountRow(table: string, srcCount: int, newCount: int, diff: int)

  function CountOf(table: string, src: seq<Row>, target: seq<Row>): (row: CountRow)
    ensures row.table == table && row.srcCount == |src| && row.newCount == |target|
    ensures row.diff > 0 <==> |target| < |src|
    ensures row.diff + row.newCount == row.srcCount
  {
    CountRow(table, |src|, |target|, |src| - |target|)
  }

  function SourceCounts(srcBene: seq<Row>, newBene: seq<Row>, srcCarrier: seq<Row>, newCarrier: seq<Row>): (rows: seq<CountRow>)
    ensures |rows| == 2
    ensures rows[0] == CountOf("beneficiary_summary", srcBene, newBene)
    ensures rows[1] == CountOf("carrier_claims", srcCarrier, newCarrier)
  {
    [CountOf("beneficiary_summary", srcBene, newBene), CountOf("carrier_claims", srcCarrier, newCarrier)]
  }

  /** Equal counts do not mean nothing is missing: one orphan and one
      extra row cancel in `diff`. */
  lemma {:induction false} BalancedCountsHideMissingRows(a: Row, b: Row, keys: seq<string>)
    requires |keys| > 0 && NonNullKey(KeyOf(a, keys)) && NonNullKey(KeyOf(b, keys))
    requires KeyOf(a, keys) != KeyOf(b, keys)
    ensures CountOf("t", [a], [b]).diff == 0
    ensures Orphans([a], [b], keys) == [a] && Extras([a], [b], keys) == [b]
  {
    AntiJoinIsUnmatched([a], [b], keys);
    AntiJoinIsUnmatched([b], [a], keys);
    MatchesMeaning(KeyOf(a, keys), KeyOf(b, keys));
    MatchesMeaning(KeyOf(b, keys), KeyOf(a, keys));
    assert [a][..0] == [] && [b][..0] == [];
  }

  const MissingInNew: string := "Missing in New"
  const ExtraInNew: string := "Extra in New"

  /** One row of `vw_missing_rows`. */
  datatype MissingRow = MissingRow(status: string, id: Cell, year: Cell)

  function Tagged(status: string, rows: seq<Row>): (out: seq<MissingRow>)
    ensures |out| == |rows|
    ensures forall i :: 0 <= i < |rows| ==>
      out[i] == MissingRow(status, Get(rows[i], "DESYNPUF_ID"), Get(rows[i], "YEAR"))
  {
    seq(|rows|, i requires 0 <= i < |rows| => MissingRow(status, Get(rows[i], "DESYNPUF_ID"), Get(rows[i], "YEAR")))
  }

  /** The orphans tagged missing, then the extras tagged extra. */
  function MissingRows(orphans: seq<Row>, extras: seq<Row>): seq<MissingRow>
  {
    Tagged(MissingInNew, orphans) + Tagged(ExtraInNew, extras)
  }

  /** The key a missing row shows is the row's beneficiary key. */
  lemma {:induction false} ShownKey(r: Row)
    ensures KeyOf(r, BeneficiaryKey) == [Get(r, "DESYNPUF_ID"), Get(r, "YEAR")]
  {
  }

  /** Missing rows first, then extra rows, each under its status. */
  lemma {:induction false} MissingRowsStatus(o: seq<Row>, e: seq<Row>)
    ensures |MissingRows(o, e)| == |o| + |e|
    ensures forall i :: 0 <= i < |o| + |e| ==> (MissingRows(o, e)[i].status == MissingInNew <==> i < |o|)
  {
  }

  /** No key without NULLs is listed as both missing and extra. */
  predicate StatusesExclusive(v: seq<MissingRow>)
  {
    forall i, j ::
      (0 <= i < |v| && 0 <= j < |v| && v[i].status == MissingInNew && v[j].status == ExtraInNew
       && v[i].id.Some? && v[i].year.Some?) ==> (v[i].id, v[i].year) != (v[j].id, v[j].year)
  }

  /** When no orphan matches an extra row, a key without NULLs never shows
      under both statuses. */
  lemma {:induction false} MissingRowsExclusive(o: seq<Row>, e: seq<Row>)
    requires forall x, y :: x in o && y in e ==> !Matches(KeyOf(x, BeneficiaryKey), KeyOf(y, BeneficiaryKey))
    ensures StatusesExclusive(MissingRows(o, e))
  {
    var v := MissingRows(o, e);
    MissingRowsStatus(o, e);
    forall i, j | 0 <= i < |v| && 0 <= j < |v| && v[i].status == MissingInNew && v[j].status == ExtraInNew
      && v[i].id.Some? && v[i].year.Some?
      ensures (v[i].id, v[i].year) != (v[j].id, v[j].year)
    {
      var x := o[i];
      var y := e[j - |o|];
      assert x in o && y in e;
      ShownKey(x);
      ShownKey(y);
      MatchesMeaning(KeyOf(x, BeneficiaryKey), KeyOf(y, BeneficiaryKey));
    }
  }

  /** For the profiler's own orphan and extra tables: each status counts
      its own table, and a key without NULLs is never listed under both. */
  lemma {:induction false} MissingRowsMeaning(src: seq<Row>, target: seq<Row>)
    ensures var o := Orphans(src, target, BeneficiaryKey);
      var e := Extras(src, target, BeneficiaryKey);
      var v := MissingRows(o, e);
      && |v| == |o| + |e|
      && (forall i :: 0 <= i < |v| ==> (v[i].status == MissingInNew <==> i < |o|))
      && StatusesExclusive(v)
  {
    var o := Orphans(src, target, BeneficiaryKey);
    var e := Extras(src, target, BeneficiaryKey);
    AntiJoinIsUnmatched(src, target, BeneficiaryKey);
    AntiJoinIsUnmatched(target, src, BeneficiaryKey);
    UnmatchedDisjoint(src, target, BeneficiaryKey);
    MissingRowsStatus(o, e);
    MissingRowsExclusive(o, e);
  }

  /** A beneficiary row with a NULL id on each side is listed twice, once
      under each status. */
  lemma {:induction false} NullIdListedTwice(s: Row, n: Row)
    requires Get(s, "DESYNPUF_ID").None? && Get(n, "DESYNPUF_ID").None?
    ensures MissingRows(Orphans([s], [n], BeneficiaryKey), Extras([s], [n], BeneficiaryKey)) ==
      [MissingRow(MissingInNew, None, Get(s, "YEAR")), MissingRow(ExtraInNew, None, Get(n, "YEAR"))]
  {
    NullKeyIsBothOrphanAndExtra(s, n, BeneficiaryKey);
  }

  const FirstLineAmount: string := "LINE_NCH_PMT_AMT_1"

  /** `ABS(x)` on a double: NaN stays NaN. */
  function AbsNum(n: Number): (r: Number)
    ensures r.NaN? <==> n.NaN?
    ensures r.Fin? ==> r.r >= 0.0 && (r.r == n.r || r.r == -n.r)
  {
    if n.NaN? then NaN else Fin(Abs(n.r))
  }

  /** `ABS(s.amt - n.amt)`: NULL when either side is. */
  function Variance(a: Cell, b: Cell): (v: Option<Number>)
    ensures v.Some? <==> NumberOf(a).Some? && NumberOf(b).Some?
  {
    match (NumberOf(a), NumberOf(b))
    case (Some(x), Some(y)) => Some(AbsNum(SubNum(x, y)))
    case _ => None
  }

  /** `s.amt <> n.amt` holds: both amounts present and unequal. */
  function AmountDiffers(p: Pair): bool
  {
    Holds(Neq3(Get(LeftRow(p), FirstLineAmount), Get(RightRow(p), FirstLineAmount)))
  }

  /** One row of `vw_amount_differences`. */
  datatype AmountRow = AmountRow(claim: Cell, srcAmt: Cell, newAmt: Cell, variance: Option<Number>)

  function AmountRowOf(p: Pair): AmountRow
  {
    var s := Get(LeftRow(p), FirstLineAmount);
    var n := Get(RightRow(p), FirstLineAmount);
    AmountRow(Get(LeftRow(p), "CLM_ID"), s, n, Variance(s, n))
  }

  /** `vw_amount_differences` over the claim-id join. */
  function AmountDifferences(src: seq<Row>, target: seq<Row>): (v: seq<AmountRow>)
  {
    var kept := Where(InnerJoin(src, target, CarrierKey), AmountDiffers);
    seq(|kept|, i requires 0 <= i < |kept| => AmountRowOf(kept[i]))
  }

  /** Both first-line amounts present and unequal. */
  predicate AmountsDiffer(a: Row, b: Row)
  {
    Get(a, FirstLineAmount).Some? && Get(b, FirstLineAmount).Some? && Get(a, FirstLineAmount) != Get(b, FirstLineAmount)
  }

  /** Every listed claim shows two present, unequal amounts. */
  lemma {:induction false} AmountListedSound(src: seq<Row>, target: seq<Row>)
    ensures forall row :: row in AmountDifferences(src, target) ==>
      row.srcAmt.Some? && row.newAmt.Some? && row.srcAmt != row.newAmt
  {
    var kept := Where(InnerJoin(src, target, CarrierKey), AmountDiffers);
    var v := AmountDifferences(src, target);
    forall row | row in v ensures row.srcAmt.Some? && row.newAmt.Some? && row.srcAmt != row.newAmt {
      var i :| 0 <= i < |v| && v[i] == row;
      assert kept[i] in kept;
    }
  }

  lemma {:induction false} PairJoined(src: seq<Row>, target: seq<Row>, keys: seq<string>, a: Row, b: Row)
    requires a in src && b in target && Matches(KeyOf(a, keys), KeyOf(b, keys))
    ensures Pair(Some(a), Some(b)) in InnerJoin(src, target, keys)
  {
    InnerJoinMeaning(src, target, keys);
  }

  lemma {:induction false} AmountPairListed(src: seq<Row>, target: seq<Row>, a: Row, b: Row)
    requires a in src && b in target && Matches(KeyOf(a, CarrierKey), KeyOf(b, CarrierKey)) && AmountsDiffer(a, b)
    ensures AmountRowOf(Pair(Some(a), Some(b))) in AmountDifferences(src, target)
  {
    var kept := Where(InnerJoin(src, target, CarrierKey), AmountDiffers);
    var v := AmountDifferences(src, target);
    var p := Pair(Some(a), Some(b));
    PairJoined(src, target, CarrierKey, a, b);
    assert AmountDiffers(p);
    assert p in kept;
    var i :| 0 <= i < |kept| && kept[i] == p;
    assert v[i] == AmountRowOf(p);
  }

  /** Every pair of rows with the same non-NULL claim id and differing
      first-line amounts is listed. */
  lemma {:induction false} AmountListedComplete(src: seq<Row>, target: seq<Row>)
    ensures forall a, b :: (a in src && b in target && Matches(KeyOf(a, CarrierKey), KeyOf(b, CarrierKey))
      && AmountsDiffer(a, b)) ==> AmountRowOf(Pair(Some(a), Some(b))) in AmountDifferences(src, target)
  {
    forall a, b | a in src && b in target && Matches(KeyOf(a, CarrierKey), KeyOf(b, CarrierKey)) && AmountsDiffer(a, b)
      ensures AmountRowOf(Pair(Some(a), Some(b))) in AmountDifferences(src, target)
    {
      AmountPairListed(src, target, a, b);
    }
  }

  /** `<>` and `IS DISTINCT FROM` part ways exactly on a NULL amount facing
      a present one: the profiler counts it as an error on the column but
      the amount view does not list it. */
  lemma {:induction false} NullAmountOnlyInErrorCounts(p: Pair)
    ensures (DiffersOn(FirstLineAmount)(p) && !AmountDiffers(p)) <==>
      Get(LeftRow(p), FirstLineAmount).None? != Get(RightRow(p), FirstLineAmount).None?
    ensures AmountDiffers(p) ==> DiffersOn(FirstLineAmount)(p)
  {
  }

  /** A listed difference between two finite doubles has a positive
      variance. */
  lemma {:induction false} ListedVariancePositive(row: AmountRow)
    requires row.srcAmt.Some? && row.newAmt.Some? && row.srcAmt != row.newAmt
    requires row.srcAmt.value.Num? && row.newAmt.value.Num?
    requires row.srcAmt.value.n.Fin? && row.newAmt.value.n.Fin?
    requires row.variance == Variance(row.srcAmt, row.newAmt)
    ensures row.variance.Some? && row.variance.value.Fin? && row.variance.value.r > 0.0
  {
  }
}
