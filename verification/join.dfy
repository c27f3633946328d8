/** `FULL OUTER JOIN ... ON <key equality>`: every left row with each of its
    partners on the right (or NULLs), followed by the right rows no left row
    matched, paired with NULLs. Used by the business-rule view (on `CLM_ID`)
    and the carrier orphan table (on the four claim key columns). */
module Join {
  import opened Sql
  import opened Table

  /** One output row of an outer join: either side may be all NULL. */
  datatype Pair = Pair(left: Option<Row>, right: Option<Row>)

  /** The `LEFT JOIN` side of a key: NULLs exactly when nothing matches, and
      otherwise exactly the matching rows. */
  lemma {:induction false} LeftSideMeaning(t: seq<Row>, cols: seq<string>, k: Key)
    ensures None in LeftSide(t, cols, k) <==> forall x :: x in t ==> !Matches(k, KeyOf(x, cols))
    ensures forall x :: Some(x) in LeftSide(t, cols, k) <==> x in t && Matches(k, KeyOf(x, cols))
  {
    var m := MatchingRows(t, cols, k);
    var side := LeftSide(t, cols, k);
    if |m| > 0 {
      assert m[0] in m;
      forall x ensures Some(x) in side <==> x in m {
        if x in m {
          var i :| 0 <= i < |m| && m[i] == x;
          assert side[i] == Some(x);
        }
      }
    }
  }

  /** The output rows one left row produces. */
  function RowPairs(a: Row, r: seq<Row>, cols: seq<string>): (ps: seq<Pair>)
    ensures forall p :: p in ps <==> p.left == Some(a) && p.right in LeftSide(r, cols, KeyOf(a, cols))
  {
    var side := LeftSide(r, cols, KeyOf(a, cols));
    var ps := seq(|side|, j requires 0 <= j < |side| => Pair(Some(a), side[j]));
    assert forall p :: p in ps ==> p.left == Some(a) && p.right in side;
    assert forall o :: o in side ==> Pair(Some(a), o) in ps by {
      forall o | o in side ensures Pair(Some(a), o) in ps {
        var j :| 0 <= j < |side| && side[j] == o;
        assert ps[j] == Pair(Some(a), o);
      }
    }
    ps
  }

  /** The `LEFT JOIN` part: the pairs of every left row, in order. */
  function LeftPairs(l: seq<Row>, r: seq<Row>, cols: seq<string>): (ps: seq<Pair>)
    ensures forall p :: p in ps <==> p.left.Some? && p.left.value in l && p in RowPairs(p.left.value, r, cols)
  {
    if |l| == 0 then []
    else
      var init := l[..|l| - 1];
      var last := l[|l| - 1];
      assert forall a :: a in l <==> a in init || a == last by {
        assert l == init + [last];
      }
      LeftPairs(init, r, cols) + RowPairs(last, r, cols)
  }

  /** The right rows no left row matches, each with NULLs on the left. */
  function RightOnly(l: seq<Row>, r: seq<Row>, cols: seq<string>): (ps: seq<Pair>)
    ensures forall p :: p in ps <==> p.left.None? && p.right.Some? && p.right.value in Unmatched(r, l, cols)
  {
    var u := Unmatched(r, l, cols);
    var ps := seq(|u|, i requires 0 <= i < |u| => Pair(None, Some(u[i])));
    assert forall b :: b in u ==> Pair(None, Some(b)) in ps by {
      forall b | b in u ensures Pair(None, Some(b)) in ps {
        var i :| 0 <= i < |u| && u[i] == b;
        assert ps[i] == Pair(None, Some(b));
      }
    }
    ps
  }

  function FullOuterJoin(l: seq<Row>, r: seq<Row>, cols: seq<string>): seq<Pair>
  {
    LeftPairs(l, r, cols) + RightOnly(l, r, cols)
  }

  lemma {:induction false} FullOuterJoinMembers(l: seq<Row>, r: seq<Row>, cols: seq<string>)
    ensures forall p :: p in FullOuterJoin(l, r, cols) <==> p in LeftPairs(l, r, cols) || p in RightOnly(l, r, cols)
  {
  }

  /** The pairs with both sides present are exactly the matching pairs. */
  lemma {:induction false} MatchedPairs(l: seq<Row>, r: seq<Row>, cols: seq<string>)
    ensures forall a, b :: Pair(Some(a), Some(b)) in FullOuterJoin(l, r, cols) <==>
      a in l && b in r && Matches(KeyOf(a, cols), KeyOf(b, cols))
  {
    forall a, b ensures Pair(Some(a), Some(b)) in FullOuterJoin(l, r, cols) <==>
      a in l && b in r && Matches(KeyOf(a, cols), KeyOf(b, cols))
    {
      var p := Pair(Some(a), Some(b));
      FullOuterJoinMembers(l, r, cols);
      assert p !in RightOnly(l, r, cols);
      LeftSideMeaning(r, cols, KeyOf(a, cols));
      assert p in LeftPairs(l, r, cols) <==> a in l && p in RowPairs(a, r, cols);
    }
  }

  /** A left row stands beside NULLs exactly when nothing on the right
      matches it. */
  lemma {:induction false} LeftOnlyPairs(l: seq<Row>, r: seq<Row>, cols: seq<string>)
    ensures forall a :: Pair(Some(a), None) in FullOuterJoin(l, r, cols) <==>
      a in l && forall o :: o in r ==> !Matches(KeyOf(a, cols), KeyOf(o, cols))
  {
    FullOuterJoinMembers(l, r, cols);
    forall a | a in l {
      LeftSideMeaning(r, cols, KeyOf(a, cols));
    }
  }

  /** A right row stands beside NULLs exactly when nothing on the left
      matches it. */
  lemma {:induction false} RightOnlyPairs(l: seq<Row>, r: seq<Row>, cols: seq<string>)
    ensures forall b :: Pair(None, Some(b)) in FullOuterJoin(l, r, cols) <==>
      b in r && forall o :: o in l ==> !Matches(KeyOf(b, cols), KeyOf(o, cols))
  {
    FullOuterJoinMembers(l, r, cols);
  }

  /** The full outer join holds exactly: the matching pairs, every left row
      without a partner beside NULLs, every right row without a partner
      beside NULLs, and never a pair of NULLs. */
  lemma {:induction false} FullOuterJoinMeaning(l: seq<Row>, r: seq<Row>, cols: seq<string>)
    ensures forall p :: p in FullOuterJoin(l, r, cols) ==> p.left.Some? || p.right.Some?
    ensures forall a, b :: Pair(Some(a), Some(b)) in FullOuterJoin(l, r, cols) <==>
      a in l && b in r && Matches(KeyOf(a, cols), KeyOf(b, cols))
    ensures forall a :: Pair(Some(a), None) in FullOuterJoin(l, r, cols) <==>
      a in l && forall o :: o in r ==> !Matches(KeyOf(a, cols), KeyOf(o, cols))
    ensures forall b :: Pair(None, Some(b)) in FullOuterJoin(l, r, cols) <==>
      b in r && forall o :: o in l ==> !Matches(KeyOf(b, cols), KeyOf(o, cols))
  {
    FullOuterJoinMembers(l, r, cols);
    MatchedPairs(l, r, cols);
    LeftOnlyPairs(l, r, cols);
    RightOnlyPairs(l, r, cols);
  }

  /** Every row of either table reaches the output. */
  lemma {:induction false} FullOuterJoinCovers(l: seq<Row>, r: seq<Row>, cols: seq<string>)
    ensures forall a :: a in l ==> exists p :: p in FullOuterJoin(l, r, cols) && p.left == Some(a)
    ensures forall b :: b in r ==> exists p :: p in FullOuterJoin(l, r, cols) && p.right == Some(b)
  {
    FullOuterJoinMeaning(l, r, cols);
    forall a | a in l ensures exists p :: p in FullOuterJoin(l, r, cols) && p.left == Some(a) {
      if forall o :: o in r ==> !Matches(KeyOf(a, cols), KeyOf(o, cols)) {
        assert Pair(Some(a), None) in FullOuterJoin(l, r, cols);
      } else {
        var o :| o in r && Matches(KeyOf(a, cols), KeyOf(o, cols));
        assert Pair(Some(a), Some(o)) in FullOuterJoin(l, r, cols);
      }
    }
    forall b | b in r ensures exists p :: p in FullOuterJoin(l, r, cols) && p.right == Some(b) {
      if forall o :: o in l ==> !Matches(KeyOf(b, cols), KeyOf(o, cols)) {
        assert Pair(None, Some(b)) in FullOuterJoin(l, r, cols);
      } else {
        var o :| o in l && Matches(KeyOf(b, cols), KeyOf(o, cols));
        MatchesSymmetric(KeyOf(b, cols), KeyOf(o, cols));
        assert Pair(Some(o), Some(b)) in FullOuterJoin(l, r, cols);
      }
    }
  }

  /** `WHERE cond` over the joined rows, order kept. */
  function Where(ps: seq<Pair>, cond: Pair -> bool): (out: seq<Pair>)
    ensures |out| <= |ps|
    ensures forall p :: p in out <==> p in ps && cond(p)
  {
    if |ps| == 0 then []
    else
      var init := ps[..|ps| - 1];
      var last := ps[|ps| - 1];
      assert forall p :: p in ps <==> p in init || p == last by {
        assert ps == init + [last];
      }
      Where(init, cond) + (if cond(last) then [last] else [])
  }

  /** A weaker condition keeps at least as many rows. */
  lemma {:induction false} WhereMonotone(ps: seq<Pair>, c1: Pair -> bool, c2: Pair -> bool)
    requires forall p :: p in ps && c1(p) ==> c2(p)
    ensures |Where(ps, c1)| <= |Where(ps, c2)|
  {
    if |ps| > 0 {
      var init := ps[..|ps| - 1];
      assert forall p :: p in init ==> p in ps;
      WhereMonotone(init, c1, c2);
      assert ps[|ps| - 1] in ps;
    }
  }

  /** `SELECT l.*`: the left side of every joined row (`None` where it is
      all NULL). */
  function Lefts(ps: seq<Pair>): (ls: seq<Option<Row>>)
    ensures |ls| == |ps|
    ensures forall i :: 0 <= i < |ps| ==> ls[i] == ps[i].left
  {
    seq(|ps|, i requires 0 <= i < |ps| => ps[i].left)
  }

  lemma {:induction false} LeftsMembers(ps: seq<Pair>)
    ensures forall x :: x in Lefts(ps) <==> exists p :: p in ps && p.left == x
  {
    forall x | x in Lefts(ps) ensures exists p :: p in ps && p.left == x {
      var i :| 0 <= i < |ps| && Lefts(ps)[i] == x;
      assert ps[i] in ps;
    }
    forall x | exists p :: p in ps && p.left == x ensures x in Lefts(ps) {
      var p :| p in ps && p.left == x;
      var i :| 0 <= i < |ps| && ps[i] == p;
      assert Lefts(ps)[i] == x;
    }
  }

  predicate BothSides(p: Pair)
  {
    p.left.Some? && p.right.Some?
  }

  /** `JOIN ... ON <key equality>`: the pairs of matching rows. */
  function InnerJoin(l: seq<Row>, r: seq<Row>, cols: seq<string>): seq<Pair>
  {
    Where(LeftPairs(l, r, cols), BothSides)
  }

  /** One pair of rows is in the inner join exactly when they match. */
  lemma {:induction false} InnerJoinPair(l: seq<Row>, r: seq<Row>, cols: seq<string>, a: Row, b: Row)
    ensures Pair(Some(a), Some(b)) in InnerJoin(l, r, cols) <==>
      a in l && b in r && Matches(KeyOf(a, cols), KeyOf(b, cols))
  {
    LeftSideMeaning(r, cols, KeyOf(a, cols));
    assert Pair(Some(a), Some(b)) in LeftPairs(l, r, cols) <==> a in l && Pair(Some(a), Some(b)) in RowPairs(a, r, cols);
  }

  lemma {:induction false} InnerJoinMeaning(l: seq<Row>, r: seq<Row>, cols: seq<string>)
    ensures forall p :: p in InnerJoin(l, r, cols) ==> p.left.Some? && p.right.Some?
    ensures forall a, b :: Pair(Some(a), Some(b)) in InnerJoin(l, r, cols) <==>
      a in l && b in r && Matches(KeyOf(a, cols), KeyOf(b, cols))
  {
    forall a, b ensures Pair(Some(a), Some(b)) in InnerJoin(l, r, cols) <==>
      a in l && b in r && Matches(KeyOf(a, cols), KeyOf(b, cols))
    {
      InnerJoinPair(l, r, cols, a, b);
    }
  }

  /** A `WHERE` over an inner join keeps a pair of rows exactly when they
      match on the key and satisfy the condition. */
  lemma {:induction false} FilteredInnerJoin(l: seq<Row>, r: seq<Row>, cols: seq<string>, cond: Pair -> bool, a: Row, b: Row)
    ensures Pair(Some(a), Some(b)) in Where(InnerJoin(l, r, cols), cond) <==>
      a in l && b in r && Matches(KeyOf(a, cols), KeyOf(b, cols)) && cond(Pair(Some(a), Some(b)))
  {
    InnerJoinPair(l, r, cols, a, b);
  }
}
