/** The payment-formula translator (`create_payment_views`): each row of
    the formula lookup whose logic reads `<value> IF <condition>` and
    mentions a carrier line column becomes a view computing
    `CASE WHEN <condition> THEN <value> ELSE 0 END` per claim. Formulas
    without ` IF ` (the `+` sums) and formulas over columns of tables the
    database does not have produce nothing. */
module Formula {
  import opened Sql
  import opened Text

  const IfSep: string := " IF "
  const CarrierMarker: string := "LINE_"
  const OutpatientMarker: string := "NCH_"
  const ViewPrefix: string := "view_calc_"

  /** A row of the formula lookup table. */
  datatype FormulaRow = FormulaRow(variableName: string, logic: string)

  /** A created view: its name, the claim id column it keeps, the table it
      reads, and the two halves of its `CASE` expression. */
  datatype PaymentView = PaymentView(name: string, idColumn: string, table: string,
                                     condition: string, valueColumn: string)

  /** `parts[0].strip()`. */
  function ValueColumn(logic: string): string
  {
    Strip(Split(logic, IfSep)[0])
  }

  /** `parts[1].strip()` with every `&` turned into `AND`. */
  function Condition(logic: string): (c: string)
    requires Contains(logic, IfSep)
    ensures forall i :: 0 <= i < |c| ==> c[i] != '&'
  {
    SplitFirst(logic, IfSep);
    assert forall i :: 0 <= i < |"AND"| ==> "AND"[i] != '&';
    ReplaceChar(Strip(Split(logic, IfSep)[1]), '&', "AND")
  }

  /** `f"view_calc_{variable_name.lower()}"`. */
  function ViewName(variable: string): (name: string)
    ensures StartsWith(name, ViewPrefix) && name[|ViewPrefix|..] == Lower(variable)
  {
    var name := ViewPrefix + Lower(variable);
    assert name[..|ViewPrefix|] == ViewPrefix && name[|ViewPrefix|..] == Lower(variable);
    name
  }

  /** The translation of one formula: a view exactly when the logic has an
      ` IF ` and mentions a line column; the view is named after the
      lower-cased variable and reads the source carrier table by claim. */
  function Translate(f: FormulaRow): (v: Option<PaymentView>)
    ensures v.Some? <==> Contains(f.logic, IfSep) && Contains(f.logic, CarrierMarker)
    ensures v.Some? ==> StartsWith(v.value.name, ViewPrefix) && v.value.name[|ViewPrefix|..] == Lower(f.variableName)
    ensures v.Some? ==> v.value.table == "src_carrier_claims" && v.value.idColumn == "clm_id"
    ensures v.Some? ==> forall i :: 0 <= i < |v.value.condition| ==> v.value.condition[i] != '&'
  {
    if Contains(f.logic, IfSep) && Contains(f.logic, CarrierMarker) then
      Some(PaymentView(ViewName(f.variableName), "clm_id", "src_carrier_claims", Condition(f.logic), ValueColumn(f.logic)))
    else
      None
  }

  /** The value is the stripped text before the first ` IF `. */
  lemma {:induction false} ValueBeforeFirstIf(logic: string)
    requires Contains(logic, IfSep)
    ensures ValueColumn(logic) == Strip(logic[..IndexOf(logic, IfSep).value])
  {
    SplitFirst(logic, IfSep);
  }

  /** The condition is the stripped text between the first and the second
      ` IF `; anything after a second ` IF ` is dropped. */
  lemma {:induction false} ConditionBetweenIfs(logic: string)
    requires Contains(logic, IfSep)
    ensures var i := IndexOf(logic, IfSep).value;
      var rest := logic[i + |IfSep|..];
      var middle := match IndexOf(rest, IfSep) case None => rest case Some(j) => rest[..j];
      Condition(logic) == ReplaceChar(Strip(middle), '&', "AND")
  {
    var i := IndexOf(logic, IfSep).value;
    var rest := logic[i + |IfSep|..];
    SplitUnfold(logic, IfSep);
    SplitFirst(rest, IfSep);
  }

  /** The `&` rewrite does not look at quotes: an ampersand inside a string
      literal is rewritten too. */
  lemma {:induction false} AmpersandInLiteralRewritten()
    ensures ReplaceChar("'&'", '&', "AND") == "'AND'"
  {
    assert "'&'"[1..] == "&'" && "&'"[1..] == "'" && "'"[1..] == "";
  }

  /** Variables whose names differ only in letter case get the same view
      name. */
  lemma {:induction false} CaseOnlyNamesCollide(a: FormulaRow, b: FormulaRow)
    requires Lower(a.variableName) == Lower(b.variableName)
    requires Translate(a).Some? && Translate(b).Some?
    ensures Translate(a).value.name == Translate(b).value.name
  {
  }

  /** A formula over the outpatient `NCH_` columns only gets no view. */
  lemma {:induction false} OutpatientFormulaSkipped(f: FormulaRow)
    requires Contains(f.logic, IfSep) && Contains(f.logic, OutpatientMarker) && !Contains(f.logic, CarrierMarker)
    ensures Translate(f).None?
  {
  }

  /** The statements issued for the whole lookup table, in row order. */
  function CreatePaymentViews(formulas: seq<FormulaRow>): (views: seq<PaymentView>)
    ensures |views| <= |formulas|
    ensures forall v :: v in views <==> exists f :: f in formulas && Translate(f) == Some(v)
  {
    if |formulas| == 0 then []
    else
      var init := formulas[..|formulas| - 1];
      var last := formulas[|formulas| - 1];
      assert forall f :: f in formulas <==> f in init || f == last by {
        assert formulas == init + [last];
      }
      CreatePaymentViews(init) + (if Translate(last).Some? then [Translate(last).value] else [])
  }

  /** The views the database holds afterwards: `CREATE OR REPLACE` lets a
      later statement with the same name win. */
  function Catalogue(views: seq<PaymentView>): (m: map<string, PaymentView>)
    ensures forall n :: n in m <==> exists v :: v in views && v.name == n
  {
    if |views| == 0 then map[]
    else
      var init := views[..|views| - 1];
      var last := views[|views| - 1];
      assert forall v :: v in views <==> v in init || v == last by {
        assert views == init + [last];
      }
      Catalogue(init)[last.name := last]
  }

  /** Each name ends up holding the last view issued under it. */
  lemma {:induction false} CatalogueLastWins(views: seq<PaymentView>, i: nat)
    requires i < |views|
    requires forall j :: i < j < |views| ==> views[j].name != views[i].name
    ensures views[i].name in Catalogue(views) && Catalogue(views)[views[i].name] == views[i]
  {
    var init := views[..|views| - 1];
    if i < |views| - 1 {
      assert forall j :: i < j < |init| ==> init[j] == views[j];
      CatalogueLastWins(init, i);
      assert init[i] == views[i];
    }
  }
}
