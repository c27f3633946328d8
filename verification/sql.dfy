/** SQL values, NULL and three-valued logic, as DuckDB evaluates them in the
    reconciliation queries. NULL is `None`; a boolean expression evaluates
    to `Bool3`, and the places that consume a condition (`CASE WHEN`,
    `WHERE`, `JOIN ... ON`) keep a row only when it is `True3`. */
module Sql {

  datatype Option<+T> = None | Some(value: T)

  /** A numeric cell: a finite amount or the floating-point NaN the
      ingestion left behind for empty spreadsheet cells. */
  datatype Number = Fin(r: real) | NaN

  /** A non-NULL cell value: VARCHAR, INTEGER or DOUBLE. Equality of values
      is structural, so `Int(5)` and `Num(Fin(5.0))` differ although DuckDB
      would cast one to the other and find them equal. The model takes every
      column to hold values of one type, as the schema declares, so two
      values compared by a query always share a constructor and structural
      equality is DuckDB's. */
  datatype Value = Str(s: string) | Int(i: int) | Num(n: Number)

  type Cell = Option<Value>

  datatype Bool3 = True3 | False3 | Unknown3

  function Not3(a: Bool3): Bool3
  {
    match a
    case True3 => False3
    case False3 => True3
    case Unknown3 => Unknown3
  }

  /** Kleene conjunction: FALSE dominates NULL. */
  function And3(a: Bool3, b: Bool3): (r: Bool3)
    ensures r == True3 <==> a == True3 && b == True3
    ensures r == False3 <==> a == False3 || b == False3
  {
    if a == False3 || b == False3 then False3
    else if a == True3 && b == True3 then True3
    else Unknown3
  }

  /** Kleene disjunction: TRUE dominates NULL. */
  function Or3(a: Bool3, b: Bool3): (r: Bool3)
    ensures r == True3 <==> a == True3 || b == True3
    ensures r == False3 <==> a == False3 && b == False3
  {
    if a == True3 || b == True3 then True3
    else if a == False3 && b == False3 then False3
    else Unknown3
  }

  function FromBool(b: bool): Bool3
  {
    if b then True3 else False3
  }

  /** `CASE WHEN c THEN ...`, `WHERE c` and `ON c` keep a row only when the
      condition is TRUE: NULL behaves as false there. */
  predicate Holds(c: Bool3)
  {
    c == True3
  }

  /** `a = b`: NULL when either side is NULL. DuckDB orders NaN as equal
      to itself, which structural equality of `Number` already gives. */
  function Eq3<T(==)>(a: Option<T>, b: Option<T>): (r: Bool3)
    ensures r == Unknown3 <==> a.None? || b.None?
    ensures r == True3 <==> a.Some? && b.Some? && a.value == b.value
  {
    if a.None? || b.None? then Unknown3 else FromBool(a.value == b.value)
  }

  /** `a <> b`. */
  function Neq3<T(==)>(a: Option<T>, b: Option<T>): (r: Bool3)
    ensures r == Unknown3 <==> a.None? || b.None?
    ensures r == True3 <==> a.Some? && b.Some? && a.value != b.value
  {
    Not3(Eq3(a, b))
  }

  /** `a IS DISTINCT FROM b`: never NULL, and NULL is not distinct from NULL. */
  predicate IsDistinctFrom<T(==)>(a: Option<T>, b: Option<T>)
  {
    a != b
  }

  lemma {:induction false} IsDistinctFromIsNullAware<T>(a: Option<T>, b: Option<T>)
    ensures a.None? && b.None? ==> !IsDistinctFrom(a, b)
    ensures a.None? != b.None? ==> IsDistinctFrom(a, b)
    ensures a.Some? && b.Some? ==> (IsDistinctFrom(a, b) <==> Holds(Neq3(a, b)))
  {
  }

  /** `COALESCE(a, d)`. */
  function Coalesce<T>(a: Option<T>, d: T): (r: T)
    ensures a.Some? ==> r == a.value
    ensures a.None? ==> r == d
  {
    if a.Some? then a.value else d
  }

  /** `CASE WHEN c THEN 1 ELSE 0 END`. */
  function Flag(c: Bool3): (r: int)
    ensures r == 1 <==> Holds(c)
    ensures r == 0 || r == 1
  {
    if Holds(c) then 1 else 0
  }

  /** `a + b` over nullable integers: NULL if either operand is NULL. */
  function Plus3(a: Option<int>, b: Option<int>): (r: Option<int>)
    ensures r.Some? <==> a.Some? && b.Some?
    ensures r.Some? ==> r.value == a.value + b.value
  {
    if a.Some? && b.Some? then Some(a.value + b.value) else None
  }

  /** `x1 + x2 + ... + xn` over nullable integers, left to right. The empty
      chain is 0 (it never occurs in the source: every chain has a term). */
  function PlusChain(xs: seq<Option<int>>): Option<int>
  {
    if |xs| == 0 then Some(0) else Plus3(PlusChain(xs[..|xs| - 1]), xs[|xs| - 1])
  }

  predicate NoNulls<T>(xs: seq<Option<T>>)
  {
    forall i :: 0 <= i < |xs| ==> xs[i].Some?
  }

  /** Sum of a sequence of integers. */
  function SumInt(xs: seq<int>): int
  {
    if |xs| == 0 then 0 else SumInt(xs[..|xs| - 1]) + xs[|xs| - 1]
  }

  /** Sum of a sequence of reals. */
  function SumReal(xs: seq<real>): real
  {
    if |xs| == 0 then 0.0 else SumReal(xs[..|xs| - 1]) + xs[|xs| - 1]
  }

  function Values(xs: seq<Option<int>>): seq<int>
    requires NoNulls(xs)
  {
    seq(|xs|, i requires 0 <= i < |xs| => xs[i].value)
  }

  /** A `+` chain is NULL exactly when one of its terms is NULL, and
      otherwise adds up its terms. */
  lemma {:induction false} PlusChainNull(xs: seq<Option<int>>)
    ensures PlusChain(xs).Some? <==> NoNulls(xs)
    ensures NoNulls(xs) ==> PlusChain(xs).value == SumInt(Values(xs))
  {
    if |xs| > 0 {
      var init := xs[..|xs| - 1];
      PlusChainNull(init);
      if NoNulls(xs) {
        assert Values(xs)[..|xs| - 1] == Values(init);
      }
    }
  }

  /** `SUM(x)` over integers: NULL values are skipped, and the sum of no
      non-NULL value is NULL. */
  function SumSkipNull(xs: seq<Option<int>>): (r: Option<int>)
    ensures r.None? <==> forall i :: 0 <= i < |xs| ==> xs[i].None?
  {
    if |xs| == 0 then None
    else
      var init := SumSkipNull(xs[..|xs| - 1]);
      var last := xs[|xs| - 1];
      if last.None? then init
      else if init.None? then last
      else Some(init.value + last.value)
  }

  /** `SUM(x)` over reals, with the same NULL rules. It is written apart
      from SumSkipNull because Dafny has no common numeric type: a generic
      sum would take its `+` as a function value, and the lemmas about the
      flag counts and the money totals each need their own arithmetic. */
  function SumSkipNullReal(xs: seq<Option<real>>): (r: Option<real>)
    ensures r.None? <==> forall i :: 0 <= i < |xs| ==> xs[i].None?
  {
    if |xs| == 0 then None
    else
      var init := SumSkipNullReal(xs[..|xs| - 1]);
      var last := xs[|xs| - 1];
      if last.None? then init
      else if init.None? then last
      else Some(init.value + last.value)
  }

  /** The non-NULL integers of a sequence, in order. */
  function NonNull(xs: seq<Option<int>>): seq<int>
  {
    if |xs| == 0 then []
    else NonNull(xs[..|xs| - 1]) + (if xs[|xs| - 1].Some? then [xs[|xs| - 1].value] else [])
  }

  /** SUM ignores NULLs: it equals the plain sum of the non-NULL values
      whenever there is at least one. */
  lemma {:induction false} SumSkipNullIsSumOfNonNull(xs: seq<Option<int>>)
    ensures SumSkipNull(xs).Some? ==> SumSkipNull(xs).value == SumInt(NonNull(xs))
    ensures SumSkipNull(xs).None? ==> NonNull(xs) == []
  {
    if |xs| > 0 {
      SumSkipNullIsSumOfNonNull(xs[..|xs| - 1]);
      var a := NonNull(xs[..|xs| - 1]);
      if xs[|xs| - 1].Some? {
        var b := a + [xs[|xs| - 1].value];
        assert NonNull(xs) == b;
        assert b[..|b| - 1] == a;
        assert SumInt(b) == SumInt(a) + xs[|xs| - 1].value;
        var init := SumSkipNull(xs[..|xs| - 1]);
        if init.None? {
          assert SumSkipNull(xs) == xs[|xs| - 1];
        } else {
          assert SumSkipNull(xs) == Some(init.value + xs[|xs| - 1].value);
        }
      } else {
        assert NonNull(xs) == a + [] == a;
      }
    }
  }

  /** `a + b` on doubles: NaN absorbs. */
  function AddNum(a: Number, b: Number): (r: Number)
    ensures r.NaN? <==> a.NaN? || b.NaN?
    ensures r.Fin? ==> r.r == a.r + b.r
  {
    if a.NaN? || b.NaN? then NaN else Fin(a.r + b.r)
  }

  /** `a - b` on doubles: NaN absorbs. */
  function SubNum(a: Number, b: Number): (r: Number)
    ensures r.NaN? <==> a.NaN? || b.NaN?
    ensures r.Fin? ==> r.r == a.r - b.r
  {
    if a.NaN? || b.NaN? then NaN else Fin(a.r - b.r)
  }

  lemma {:induction false} AddNumCommutes(a: Number, b: Number)
    ensures AddNum(a, b) == AddNum(b, a)
  {
  }

  lemma {:induction false} AddNumAssociates(a: Number, b: Number, c: Number)
    ensures AddNum(AddNum(a, b), c) == AddNum(a, AddNum(b, c))
  {
  }

  /** The numeric reading of a cell of a numeric column; an INTEGER widens
      to a double. A VARCHAR value cannot occur in a numeric column of the
      schema and reads as NULL. */
  function NumberOf(c: Cell): (r: Option<Number>)
    ensures c.None? ==> r.None?
    ensures c.Some? && c.value.Num? ==> r == Some(c.value.n)
    ensures c.Some? && c.value.Int? ==> r == Some(Fin(c.value.i as real))
  {
    match c
    case None => None
    case Some(Str(_)) => None
    case Some(Int(i)) => Some(Fin(i as real))
    case Some(Num(n)) => Some(n)
  }

  /** `COALESCE(x, 0)` on a double column. */
  function CoalesceNum(c: Cell): (r: Number)
    ensures NumberOf(c).Some? ==> r == NumberOf(c).value
    ensures NumberOf(c).None? ==> r == Fin(0.0)
  {
    Coalesce(NumberOf(c), Fin(0.0))
  }

  /** `x > 0`. DuckDB orders NaN above every number, so `NaN > 0` is TRUE. */
  function Positive3(c: Cell): (r: Bool3)
    ensures r == Unknown3 <==> NumberOf(c).None?
    ensures r == True3 <==> NumberOf(c).Some? && (NumberOf(c).value.NaN? || NumberOf(c).value.r > 0.0)
  {
    match NumberOf(c)
    case None => Unknown3
    case Some(NaN) => True3
    case Some(Fin(x)) => FromBool(x > 0.0)
  }

  /** Absolute value. */
  function Abs(x: real): (r: real)
    ensures r >= 0.0
    ensures r == x || r == -x
  {
    if x < 0.0 then -x else x
  }
}
