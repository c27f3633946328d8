/** The defect matrix: one audit row per key of the key union, with a 0/1
    flag per field telling whether the two snapshots disagree once NULL is
    replaced by the column's default. Both carrier builds are modelled: the
    single statement that produces every flag at once, and the alternative
    column-group `UPDATE` path that runs when that statement fails. */
module Audit {
  import opened Sql
  import opened Table
  import opened Schema

  /** An audit row: the key columns and one flag per audited field, in the
      order of the field list. A flag is `None` where the row was never
      populated. */
  datatype AuditRow = AuditRow(key: Key, flags: seq<Option<int>>)

  /** One side of a `LEFT JOIN`: the matched row's cell, or NULL. */
  function Side(r: Option<Row>, c: string): (v: Cell)
    ensures r.None? ==> v.None?
    ensures r.Some? ==> v == Get(r.value, c)
  {
    if r.Some? then Get(r.value, c) else None
  }

  /** `CASE WHEN COALESCE(s.f, d) <> COALESCE(n.f, d) THEN 1 ELSE 0 END`,
      where `d` is `''` for text and `0` for numbers. */
  function FieldFlag(col: Column, s: Cell, n: Cell): (f: int)
    ensures f == 0 || f == 1
    ensures f == 1 <==> Coalesce(s, Default(col.kind)) != Coalesce(n, Default(col.kind))
  {
    Flag(Neq3(Some(Coalesce(s, Default(col.kind))), Some(Coalesce(n, Default(col.kind)))))
  }

  /** A value present on one side only is flagged exactly when it differs
      from the default: a one-sided key is not flagged on every field. */
  lemma {:induction false} OneSidedFlag(col: Column, v: Cell)
    ensures FieldFlag(col, v, None) == 1 <==> v.Some? && v.value != Default(col.kind)
    ensures FieldFlag(col, None, v) == 1 <==> v.Some? && v.value != Default(col.kind)
  {
  }

  /** A value compared with itself is never flagged, NaN included. */
  lemma {:induction false} SameValueNotFlagged(col: Column, v: Cell)
    ensures FieldFlag(col, v, v) == 0
  {
  }

  /** The flags of one joined pair, field by field. */
  function Flags(fields: seq<Column>, s: Option<Row>, n: Option<Row>): (fs: seq<Option<int>>)
    ensures |fs| == |fields|
    ensures forall i :: 0 <= i < |fields| ==>
      fs[i] == Some(FieldFlag(fields[i], Side(s, fields[i].name), Side(n, fields[i].name)))
  {
    seq(|fields|, i requires 0 <= i < |fields| =>
      Some(FieldFlag(fields[i], Side(s, fields[i].name), Side(n, fields[i].name))))
  }

  /** The audit rows one key produces: every pairing of its source side with
      its target side. */
  function RowsForKey(src: seq<Row>, target: seq<Row>, keyCols: seq<string>, fields: seq<Column>, k: Key): seq<AuditRow>
  {
    var ss := LeftSide(src, keyCols, k);
    var ns := LeftSide(target, keyCols, k);
    Pairings(ss, ns, fields, k)
  }

  function Pairings(ss: seq<Option<Row>>, ns: seq<Option<Row>>, fields: seq<Column>, k: Key): (rows: seq<AuditRow>)
    ensures |rows| == |ss| * |ns|
  {
    if |ss| == 0 then []
    else
      seq(|ns|, j requires 0 <= j < |ns| => AuditRow(k, Flags(fields, ss[0], ns[j])))
      + Pairings(ss[1..], ns, fields, k)
  }

  function AuditFor(keys: seq<Key>, src: seq<Row>, target: seq<Row>, keyCols: seq<string>, fields: seq<Column>): seq<AuditRow>
  {
    if |keys| == 0 then []
    else AuditFor(keys[..|keys| - 1], src, target, keyCols, fields)
         + RowsForKey(src, target, keyCols, fields, keys[|keys| - 1])
  }

  /** The single-statement build: `KEYS k LEFT JOIN src_ s ON <key>
      LEFT JOIN new_ n ON <key>`, flags computed per field. */
  function BuildAudit(src: seq<Row>, target: seq<Row>, keyCols: seq<string>, fields: seq<Column>): seq<AuditRow>
  {
    AuditFor(KeyUnion(src, target, keyCols), src, target, keyCols, fields)
  }

  /** The row a unique-keyed snapshot contributes for key `k`. */
  function AuditRowOf(src: seq<Row>, target: seq<Row>, keyCols: seq<string>, fields: seq<Column>, k: Key): AuditRow
  {
    AuditRow(k, Flags(fields, Lookup(src, keyCols, k), Lookup(target, keyCols, k)))
  }

  lemma {:induction false} RowsForUniqueKey(src: seq<Row>, target: seq<Row>, keyCols: seq<string>, fields: seq<Column>, k: Key)
    requires UniqueOnKey(src, keyCols) && UniqueOnKey(target, keyCols)
    ensures RowsForKey(src, target, keyCols, fields, k) == [AuditRowOf(src, target, keyCols, fields, k)]
  {
    LeftSideUnique(src, keyCols, k);
    LeftSideUnique(target, keyCols, k);
    var ss := LeftSide(src, keyCols, k);
    var ns := LeftSide(target, keyCols, k);
    assert Pairings(ss[1..], ns, fields, k) == [];
  }

  lemma {:induction false} AuditForSnocUnique(keys: seq<Key>, src: seq<Row>, target: seq<Row>, keyCols: seq<string>, fields: seq<Column>)
    requires UniqueOnKey(src, keyCols) && UniqueOnKey(target, keyCols) && |keys| > 0
    ensures AuditFor(keys, src, target, keyCols, fields) ==
      AuditFor(keys[..|keys| - 1], src, target, keyCols, fields) + [AuditRowOf(src, target, keyCols, fields, keys[|keys| - 1])]
  {
    RowsForUniqueKey(src, target, keyCols, fields, keys[|keys| - 1]);
  }

  lemma {:induction false} AuditForUnique(keys: seq<Key>, src: seq<Row>, target: seq<Row>, keyCols: seq<string>, fields: seq<Column>)
    requires UniqueOnKey(src, keyCols) && UniqueOnKey(target, keyCols)
    ensures |AuditFor(keys, src, target, keyCols, fields)| == |keys|
    ensures forall i :: 0 <= i < |keys| ==>
      AuditFor(keys, src, target, keyCols, fields)[i] == AuditRowOf(src, target, keyCols, fields, keys[i])
  {
    if |keys| > 0 {
      AuditForUnique(keys[..|keys| - 1], src, target, keyCols, fields);
      AuditForSnocUnique(keys, src, target, keyCols, fields);
      MapSnoc(keys, AuditFor(keys[..|keys| - 1], src, target, keyCols, fields),
        k => AuditRowOf(src, target, keyCols, fields, k));
    }
  }

  /** Extending a pointwise image by the image of one more element. */
  lemma {:induction false} MapSnoc<A, B>(xs: seq<A>, prev: seq<B>, f: A -> B)
    requires |xs| > 0 && |prev| == |xs| - 1
    requires forall i :: 0 <= i < |prev| ==> prev[i] == f(xs[i])
    ensures forall i :: 0 <= i < |xs| ==> (prev + [f(xs[|xs| - 1])])[i] == f(xs[i])
  {
  }

  /** With unique keys in both snapshots the audit table has exactly one row
      per distinct key of either snapshot, each flagged from that key's
      source and target rows. */
  lemma {:induction false} OneRowPerKey(src: seq<Row>, target: seq<Row>, keyCols: seq<string>, fields: seq<Column>)
    requires UniqueOnKey(src, keyCols) && UniqueOnKey(target, keyCols)
    ensures |BuildAudit(src, target, keyCols, fields)| == |KeyUnion(src, target, keyCols)|
    ensures forall i :: 0 <= i < |BuildAudit(src, target, keyCols, fields)| ==>
      BuildAudit(src, target, keyCols, fields)[i] == AuditRowOf(src, target, keyCols, fields, KeyUnion(src, target, keyCols)[i])
    ensures forall i, j :: 0 <= i < j < |BuildAudit(src, target, keyCols, fields)| ==>
      BuildAudit(src, target, keyCols, fields)[i].key != BuildAudit(src, target, keyCols, fields)[j].key
    ensures forall k :: k in Keys(src, keyCols) || k in Keys(target, keyCols) ==>
      exists i :: 0 <= i < |BuildAudit(src, target, keyCols, fields)| && BuildAudit(src, target, keyCols, fields)[i].key == k
  {
    var ks := KeyUnion(src, target, keyCols);
    AuditForUnique(ks, src, target, keyCols, fields);
    var a := BuildAudit(src, target, keyCols, fields);
    forall k | k in Keys(src, keyCols) || k in Keys(target, keyCols)
      ensures exists i :: 0 <= i < |a| && a[i].key == k
    {
      var i :| 0 <= i < |ks| && ks[i] == k;
      assert a[i].key == k;
    }
  }

  /** A key with a NULL component matches no row on either side, so it gets
      one row whose flags are all 0, even when both snapshots hold a claim
      with that key and disagree on every field. */
  lemma {:induction false} NullKeyAllZero(src: seq<Row>, target: seq<Row>, keyCols: seq<string>, fields: seq<Column>, k: Key)
    requires !NonNullKey(k)
    ensures RowsForKey(src, target, keyCols, fields, k) == [AuditRow(k, seq(|fields|, i => Some(0)))]
  {
    forall r | r in src ensures !Matches(k, KeyOf(r, keyCols)) {
      MatchesMeaning(k, KeyOf(r, keyCols));
    }
    forall r | r in target ensures !Matches(k, KeyOf(r, keyCols)) {
      MatchesMeaning(k, KeyOf(r, keyCols));
    }
    var ss := LeftSide(src, keyCols, k);
    assert Pairings(ss[1..], [None], fields, k) == [];
    assert Flags(fields, None, None) == seq(|fields|, i => Some(0));
  }

  /** Flags that were never set. */
  function NullFlags(n: nat): (fs: seq<Option<int>>)
    ensures |fs| == n
    ensures forall i :: 0 <= i < n ==> fs[i].None?
  {
    seq(n, i => None)
  }

  /** The alternative path's `UPDATE audit t SET ... FROM src s LEFT JOIN new
      n ON <key> WHERE t.<key> = s.<key>`: a key that no source row matches is
      never updated and keeps NULL flags. Where a source row matches, the
      first one is taken (the carrier primary key allows only one). */
  function AltFlags(src: seq<Row>, target: seq<Row>, keyCols: seq<string>, fields: seq<Column>, k: Key): (fs: seq<Option<int>>)
    ensures |fs| == |fields|
  {
    var s := Lookup(src, keyCols, k);
    if s.None? then NullFlags(|fields|)
    else Flags(fields, s, Lookup(target, keyCols, KeyOf(s.value, keyCols)))
  }

  /** The alternative build: the key union first, flags filled by update. */
  function AltAudit(src: seq<Row>, target: seq<Row>, keyCols: seq<string>, fields: seq<Column>): (rows: seq<AuditRow>)
    ensures |rows| == |KeyUnion(src, target, keyCols)|
  {
    var ks := KeyUnion(src, target, keyCols);
    seq(|ks|, i requires 0 <= i < |ks| => AuditRow(ks[i], AltFlags(src, target, keyCols, fields, ks[i])))
  }

  /** On every key a source row matches, the alternative path computes the
      same flags as the single statement; on every other key (target-only
      keys and keys with a NULL component) its flags stay NULL. */
  lemma {:induction false} AltAgreesOnSourceKeys(src: seq<Row>, target: seq<Row>, keyCols: seq<string>, fields: seq<Column>)
    requires UniqueOnKey(src, keyCols) && UniqueOnKey(target, keyCols)
    ensures |AltAudit(src, target, keyCols, fields)| == |BuildAudit(src, target, keyCols, fields)|
    ensures forall i :: 0 <= i < |AltAudit(src, target, keyCols, fields)| ==>
      var k := AltAudit(src, target, keyCols, fields)[i].key;
      ((exists r :: r in src && Matches(k, KeyOf(r, keyCols))) ==>
        AltAudit(src, target, keyCols, fields)[i] == BuildAudit(src, target, keyCols, fields)[i])
      && ((forall r :: r in src ==> !Matches(k, KeyOf(r, keyCols))) ==>
        forall f :: 0 <= f < |fields| ==> AltAudit(src, target, keyCols, fields)[i].flags[f].None?)
  {
    OneRowPerKey(src, target, keyCols, fields);
    var ks := KeyUnion(src, target, keyCols);
    var alt := AltAudit(src, target, keyCols, fields);
    var one := BuildAudit(src, target, keyCols, fields);
    forall i | 0 <= i < |alt|
      ensures (exists r :: r in src && Matches(ks[i], KeyOf(r, keyCols))) ==> alt[i] == one[i]
    {
      var k := ks[i];
      var s := Lookup(src, keyCols, k);
      if s.Some? {
        MatchesMeaning(k, KeyOf(s.value, keyCols));
        assert KeyOf(s.value, keyCols) == k;
      }
    }
  }
}
