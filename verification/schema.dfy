/** The schema registry: the columns of the beneficiary-summary and
    carrier-claims tables, which the source and the new snapshot share, and
    the field families the quality views group columns into. */
module Schema {
  import opened Sql
  import opened Text

  /** Declared column type: String, Integer or Float. */
  datatype Kind = TextKind | IntKind | FloatKind

  datatype Column = Column(name: string, kind: Kind)

  /** The value `COALESCE(x, default)` substitutes for NULL in the flag rule:
      `''` for text, `0` for numbers. */
  function Default(k: Kind): (d: Value)
    ensures k == TextKind <==> d.Str?
    ensures d == Str("") || d == Int(0) || d == Num(Fin(0.0))
  {
    match k
    case TextKind => Str("")
    case IntKind => Int(0)
    case FloatKind => Num(Fin(0.0))
  }

  function Names(cols: seq<Column>): (names: seq<string>)
    ensures |names| == |cols|
    ensures forall i :: 0 <= i < |cols| ==> names[i] == cols[i].name
  {
    seq(|cols|, i requires 0 <= i < |cols| => cols[i].name)
  }

  /** Beneficiary primary key. */
  const BeneficiaryKey: seq<string> := ["DESYNPUF_ID", "YEAR"]

  /** The non-key beneficiary columns, in declaration order. */
  const BeneficiaryFields: seq<Column> := [
    Column("BENE_BIRTH_DT", TextKind), Column("BENE_DEATH_DT", TextKind),
    Column("BENE_SEX_IDENT_CD", TextKind), Column("BENE_RACE_CD", TextKind),
    Column("BENE_ESRD_IND", TextKind), Column("SP_STATE_CODE", TextKind),
    Column("BENE_COUNTY_CD", TextKind),
    Column("BENE_HI_CVRAGE_TOT_MONS", IntKind), Column("BENE_SMI_CVRAGE_TOT_MONS", IntKind),
    Column("BENE_HMO_CVRAGE_TOT_MONS", IntKind), Column("PLAN_CVRG_MOS_NUM", IntKind),
    Column("SP_ALZHDMTA", TextKind), Column("SP_CHF", TextKind), Column("SP_CHRNKIDN", TextKind),
    Column("SP_CNCR", TextKind), Column("SP_COPD", TextKind), Column("SP_DEPRESSN", TextKind),
    Column("SP_DIABETES", TextKind), Column("SP_ISCHMCHT", TextKind), Column("SP_OSTEOPRS", TextKind),
    Column("SP_RA_OA", TextKind), Column("SP_STRKETIA", TextKind),
    Column("MEDREIMB_IP", FloatKind), Column("BENRES_IP", FloatKind), Column("PPPYMT_IP", FloatKind),
    Column("MEDREIMB_OP", FloatKind), Column("BENRES_OP", FloatKind), Column("PPPYMT_OP", FloatKind),
    Column("MEDREIMB_CAR", FloatKind), Column("BENRES_CAR", FloatKind), Column("PPPYMT_CAR", FloatKind)
  ]

  /** Both beneficiary tables declare the key columns followed by the fields. */
  const BeneficiaryColumns: seq<Column> :=
    [Column("DESYNPUF_ID", TextKind), Column("YEAR", IntKind)] + BeneficiaryFields

  /** Carrier primary key: the claim id alone; DESYNPUF_ID is only indexed. */
  const CarrierKey: seq<string> := ["CLM_ID"]

  /** The four columns the carrier audit tables are keyed by. */
  const CarrierAuditKey: seq<string> := ["DESYNPUF_ID", "CLM_ID", "CLM_FROM_DT", "CLM_THRU_DT"]

  /** `base_1`, ..., `base_n`. */
  function Slots(base: string, kind: Kind, n: nat): (cols: seq<Column>)
    ensures |cols| == n
    ensures forall i :: 0 <= i < n ==> cols[i] == Column(base + "_" + NatToString(i + 1), kind)
  {
    seq(n, i requires 0 <= i < n => Column(base + "_" + NatToString(i + 1), kind))
  }

  /** The ten families of per-line columns, thirteen slots each. */
  const LineFamilies: seq<Column> := [
    Column("PRF_PHYSN_NPI", TextKind), Column("TAX_NUM", TextKind), Column("HCPCS_CD", TextKind),
    Column("LINE_NCH_PMT_AMT", FloatKind), Column("LINE_BENE_PTB_DDCTBL_AMT", FloatKind),
    Column("LINE_BENE_PRMRY_PYR_PD_AMT", FloatKind), Column("LINE_COINSRNC_AMT", FloatKind),
    Column("LINE_ALOWD_CHRG_AMT", FloatKind), Column("LINE_PRCSG_IND_CD", TextKind),
    Column("LINE_ICD9_DGNS_CD", TextKind)
  ]

  function FamilySlots(fams: seq<Column>, n: nat): (cols: seq<Column>)
    ensures |cols| == |fams| * n
  {
    if |fams| == 0 then []
    else Slots(fams[0].name, fams[0].kind, n) + FamilySlots(fams[1..], n)
  }

  /** The 138 coded and per-line carrier columns: eight diagnosis codes and
      ten thirteen-slot families. These are the flags the carrier DPMO sums. */
  const CarrierSlotColumns: seq<Column> :=
    Slots("ICD9_DGNS_CD", TextKind, 8) + FamilySlots(LineFamilies, 13)

  /** Every carrier column the audit flags: the two claim dates and the 138
      slot columns. */
  const CarrierFields: seq<Column> :=
    [Column("CLM_FROM_DT", TextKind), Column("CLM_THRU_DT", TextKind)] + CarrierSlotColumns

  /** Both carrier tables declare the id columns followed by the slot columns. */
  const CarrierColumns: seq<Column> :=
    [Column("DESYNPUF_ID", TextKind), Column("CLM_ID", TextKind)] + CarrierFields

  /** The per-line family names are distinct from each other and from the
      diagnosis-code family. */
  lemma {:induction false} LineFamiliesDistinct()
    ensures forall i, j :: 0 <= i < j < |LineFamilies| ==> LineFamilies[i].name != LineFamilies[j].name
    ensures forall i :: 0 <= i < |LineFamilies| ==> LineFamilies[i].name != "ICD9_DGNS_CD"
  {
  }

  lemma {:induction false} CarrierColumnCounts()
    ensures |CarrierSlotColumns| == 138
    ensures |CarrierFields| == 140
  {
  }

  lemma {:induction false} BeneficiaryFieldCount()
    ensures |BeneficiaryFields| == 31
  {
  }

  /** Length of the longest all-digit suffix. */
  function DigitSuffixLen(s: string): (n: nat)
    ensures n <= |s|
  {
    if |s| > 0 && IsDigit(s[|s| - 1]) then DigitSuffixLen(s[..|s| - 1]) + 1 else 0
  }

  lemma {:induction false} DigitSuffixLenSpec(s: string)
    ensures AllDigits(s[|s| - DigitSuffixLen(s)..])
    ensures DigitSuffixLen(s) < |s| ==> !IsDigit(s[|s| - DigitSuffixLen(s) - 1])
  {
    if |s| > 0 && IsDigit(s[|s| - 1]) {
      var n := DigitSuffixLen(s);
      DigitSuffixLenSpec(s[..|s| - 1]);
      assert s[|s| - n..] == s[..|s| - 1][|s| - n..] + [s[|s| - 1]];
    }
  }

  /** `regexp_replace(name, '_[0-9]+$', '')`: drops one trailing underscore
      followed by digits, which groups `X_1` ... `X_13` into family `X`. */
  function Family(name: string): (f: string)
    ensures StartsWith(name, f)
  {
    var n := DigitSuffixLen(name);
    if 0 < n < |name| && name[|name| - n - 1] == '_' then name[..|name| - n - 1] else name
  }

  /** The regular expression matches: an underscore followed only by one or
      more digits up to the end. */
  predicate HasSlotSuffix(s: string)
  {
    exists i | 0 <= i < |s| - 1 :: s[i] == '_' && AllDigits(s[i + 1..])
  }

  lemma {:induction false} DigitSuffixMaximal(s: string, i: nat)
    requires i < |s| && !IsDigit(s[i]) && AllDigits(s[i + 1..])
    ensures DigitSuffixLen(s) == |s| - i - 1
  {
    DigitSuffixLenSpec(s);
  }

  /** The family changes a name exactly when the pattern matches, and then
      it removes exactly `_` and the digits after it. */
  lemma {:induction false} FamilyMatchesPattern(s: string)
    ensures Family(s) != s <==> HasSlotSuffix(s)
    ensures HasSlotSuffix(s) ==>
      |Family(s)| + 1 < |s| && s == Family(s) + "_" + s[|Family(s)| + 1..] && AllDigits(s[|Family(s)| + 1..])
  {
    var n := DigitSuffixLen(s);
    DigitSuffixLenSpec(s);
    if 0 < n < |s| && s[|s| - n - 1] == '_' {
      var i := |s| - n - 1;
      assert Family(s) == s[..i];
      assert s[i + 1..] == s[|s| - n..];
      assert s[i] == '_' && AllDigits(s[i + 1..]);
      assert HasSlotSuffix(s);
      assert s == s[..i] + "_" + s[i + 1..];
    } else {
      assert Family(s) == s;
      if HasSlotSuffix(s) {
        var i :| 0 <= i < |s| - 1 && s[i] == '_' && AllDigits(s[i + 1..]);
        DigitSuffixMaximal(s, i);
        assert false;
      }
    }
  }

  /** The family of a slot column is its base name, whatever the base. */
  lemma {:induction false} FamilyOfSlot(base: string, k: nat)
    ensures Family(base + "_" + NatToString(k)) == base
  {
    var s := base + "_" + NatToString(k);
    var i := |base|;
    assert s[i] == '_';
    assert s[i + 1..] == NatToString(k);
    DigitSuffixMaximal(s, i);
    assert s[..i] == base;
  }

  /** A name that ends in a letter is its own family. */
  lemma {:induction false} FamilyOfLetterEnding(s: string)
    requires EndsInNonDigit(s)
    ensures Family(s) == s
  {
  }

  /** No beneficiary field ends in `_<digits>`, so every beneficiary family
      has exactly one member. */
  lemma {:induction false} BeneficiaryFamiliesAreSingletons()
    ensures forall i :: 0 <= i < |BeneficiaryFields| ==> Family(BeneficiaryFields[i].name) == BeneficiaryFields[i].name
  {
    BeneficiaryNamesEndInLetters();
    forall i | 0 <= i < |BeneficiaryFields|
      ensures Family(BeneficiaryFields[i].name) == BeneficiaryFields[i].name
    {
      FamilyOfLetterEnding(BeneficiaryFields[i].name);
    }
  }

  predicate EndsInNonDigit(s: string)
  {
    |s| > 0 && !IsDigit(s[|s| - 1])
  }

  lemma {:induction false} BeneficiaryNamesEndInLetters()
    ensures forall i :: 0 <= i < |BeneficiaryFields| ==> EndsInNonDigit(BeneficiaryFields[i].name)
  {
  }

  /** The columns of `cols` whose family is `fam`. */
  function FamilyMembers(cols: seq<Column>, fam: string): (m: seq<Column>)
    ensures |m| <= |cols|
  {
    if |cols| == 0 then []
    else (if Family(cols[0].name) == fam then [cols[0]] else []) + FamilyMembers(cols[1..], fam)
  }

  lemma {:induction false} FamilyMembersConcat(a: seq<Column>, b: seq<Column>, fam: string)
    ensures FamilyMembers(a + b, fam) == FamilyMembers(a, fam) + FamilyMembers(b, fam)
  {
    if |a| == 0 {
      assert a + b == b;
    } else {
      var member := Family(a[0].name) == fam;
      assert (a + b)[0] == a[0];
      assert (a + b)[1..] == a[1..] + b;
      FamilyMembersFirst(a + b, fam, member);
      FamilyMembersFirst(a, fam, member);
      FamilyMembersConcat(a[1..], b, fam);
      var x := if member then [a[0]] else [];
      ConcatAssociates(x, FamilyMembers(a[1..], fam), FamilyMembers(b, fam));
    }
  }

  lemma {:induction false} FamilyMembersFirst(cols: seq<Column>, fam: string, member: bool)
    requires |cols| > 0 && member == (Family(cols[0].name) == fam)
    ensures FamilyMembers(cols, fam) == (if member then [cols[0]] else []) + FamilyMembers(cols[1..], fam)
  {
  }

  /** Every slot column of `base` belongs to family `base`. */
  lemma {:induction false} SlotsFamily(base: string, kind: Kind, n: nat)
    ensures forall i :: 0 <= i < n ==> Family(Slots(base, kind, n)[i].name) == base
  {
    forall i | 0 <= i < n
      ensures Family(Slots(base, kind, n)[i].name) == base
    {
      FamilyOfSlot(base, i + 1);
    }
  }

  /** Filtering columns that all share one family keeps all or none. */
  lemma {:induction false} FamilyMembersUniform(cols: seq<Column>, base: string, fam: string)
    requires forall i :: 0 <= i < |cols| ==> Family(cols[i].name) == base
    ensures FamilyMembers(cols, fam) == if base == fam then cols else []
  {
    if |cols| > 0 {
      var rest := cols[1..];
      assert forall i :: 0 <= i < |rest| ==> Family(rest[i].name) == base by {
        forall i | 0 <= i < |rest| ensures Family(rest[i].name) == base {
          assert rest[i] == cols[i + 1];
        }
      }
      FamilyMembersUniform(rest, base, fam);
      FamilyMembersFirst(cols, fam, Family(cols[0].name) == fam);
      if base == fam {
        assert [cols[0]] + rest == cols;
      }
    }
  }

  lemma {:induction false} FamilyMembersOfSlots(base: string, kind: Kind, n: nat, fam: string)
    ensures FamilyMembers(Slots(base, kind, n), fam) == if base == fam then Slots(base, kind, n) else []
  {
    SlotsFamily(base, kind, n);
    FamilyMembersUniform(Slots(base, kind, n), base, fam);
  }

  lemma {:induction false} FamilyMembersOfFamilySlots(fams: seq<Column>, n: nat, fam: string)
    requires forall i, j :: 0 <= i < j < |fams| ==> fams[i].name != fams[j].name
    ensures forall i :: 0 <= i < |fams| && fams[i].name == fam ==>
      FamilyMembers(FamilySlots(fams, n), fam) == Slots(fam, fams[i].kind, n)
    ensures (forall i :: 0 <= i < |fams| ==> fams[i].name != fam) ==> FamilyMembers(FamilySlots(fams, n), fam) == []
  {
    if |fams| > 0 {
      FamilyMembersConcat(Slots(fams[0].name, fams[0].kind, n), FamilySlots(fams[1..], n), fam);
      FamilyMembersOfSlots(fams[0].name, fams[0].kind, n, fam);
      FamilyMembersOfFamilySlots(fams[1..], n, fam);
      forall i | 0 <= i < |fams| && fams[i].name == fam
        ensures FamilyMembers(FamilySlots(fams, n), fam) == Slots(fam, fams[i].kind, n)
      {
        if i > 0 {
          assert fams[1..][i - 1] == fams[i];
          assert fams[0].name != fam;
        } else {
          TailNames(fams, fam);
        }
      }
      if forall i :: 0 <= i < |fams| ==> fams[i].name != fam {
        TailNames(fams, fam);
      }
    }
  }

  lemma {:induction false} TailNames(fams: seq<Column>, fam: string)
    requires |fams| > 0 && forall i :: 1 <= i < |fams| ==> fams[i].name != fam
    ensures forall j :: 0 <= j < |fams[1..]| ==> fams[1..][j].name != fam
  {
    forall j | 0 <= j < |fams[1..]| ensures fams[1..][j].name != fam {
      assert fams[1..][j] == fams[j + 1];
    }
  }

  /** Slotting a family `first` m times and each of the distinct families
      `fams` n times gives `first` exactly m members and every other family
      exactly n. With `ICD9_DGNS_CD` eight times and the ten per-line families
      thirteen times (distinct by `LineFamiliesDistinct`), this is the
      carrier slot-column list. */
  lemma {:induction false} SlottedFamilySizes(first: Column, m: nat, fams: seq<Column>, n: nat)
    requires forall i, j :: 0 <= i < j < |fams| ==> fams[i].name != fams[j].name
    requires forall i :: 0 <= i < |fams| ==> fams[i].name != first.name
    ensures |FamilyMembers(Slots(first.name, first.kind, m) + FamilySlots(fams, n), first.name)| == m
    ensures forall i :: 0 <= i < |fams| ==>
      |FamilyMembers(Slots(first.name, first.kind, m) + FamilySlots(fams, n), fams[i].name)| == n
  {
    var head := Slots(first.name, first.kind, m);
    FamilyMembersConcat(head, FamilySlots(fams, n), first.name);
    FamilyMembersOfSlots(first.name, first.kind, m, first.name);
    FamilyMembersOfFamilySlots(fams, n, first.name);
    forall i | 0 <= i < |fams|
      ensures |FamilyMembers(head + FamilySlots(fams, n), fams[i].name)| == n
    {
      FamilyMembersConcat(head, FamilySlots(fams, n), fams[i].name);
      FamilyMembersOfSlots(first.name, first.kind, m, fams[i].name);
      FamilyMembersOfFamilySlots(fams, n, fams[i].name);
    }
  }
}
