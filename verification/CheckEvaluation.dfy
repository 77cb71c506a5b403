/**
 How the engine publishes and evaluates CHECK constraints around the compiler of `CheckViolation`: the
 operand resolver of crates/engine/src/rel_exec_helpers.rs, the literal guard of
 crates/engine/src/check_violation_expr.rs, the host-side scan of ADD CHECK in
 crates/engine/src/engine_ddl_table.rs and the device-side validation of written rows in
 crates/engine/src/engine_dml_prepare.rs.

 The guard runs before both evaluators and refuses every literal that could blur the host's decimal
 comparison, so the two sides agree without exception.
 */
module CheckEvaluation {
  import opened Primitives
  import opened Decimal
  import opened DecimalOrder
  import opened CheckViolation

  const NUMERIC_DEFAULT_PRECISION: U8 := 38

  /** Every numeric type the parser produces has a precision of at most 38. */
  predicate Declarable(ty: SqlType) { ty.TNumeric? ==> ty.precision <= NUMERIC_DEFAULT_PRECISION }

  // ---------------------------------------------------------------- the literal guard

  datatype LiteralVerdict = Usable | MetadataDisagrees | FieldOverflow

  ghost function LiteralVerdictOf(check: Check): LiteralVerdict
  {
    if !check.inputType.TNumeric? || check.value.Null? then Usable
    else if !check.value.Numeric? then MetadataDisagrees
    else if Abs(check.value.d.mantissa) >= Pow10(check.inputType.precision) then FieldOverflow
    else Usable
  }

  /** The guard as it runs, over the loop that gives up when the power of ten overflows. */
  method ValidateLiteral(check: Check) returns (verdict: LiteralVerdict)
    ensures verdict == LiteralVerdictOf(check)
  {
    if !check.inputType.TNumeric? || check.value.Null? { return Usable; }
    if !check.value.Numeric? { return MetadataDisagrees; }
    var exceeds := NumericExceedsPrecision(check.value.d.mantissa, check.inputType.precision);
    verdict := if exceeds then FieldOverflow else Usable;
  }

  lemma FewerDigits(mantissa: int, precision: nat)
    requires precision <= 38 && Abs(mantissa) < Pow10(precision)
    ensures Abs(mantissa) < Pow10(38)
  {
    Pow10Grows(precision, 38);
  }

  /** No literal the guard lets through can blur with a stored value. */
  lemma UsableIsNeverBlurred(ty: SqlType, check: Check, v: SqlValue)
    requires Declarable(ty) && Declarable(check.inputType) && Admissible(ty, check)
    requires Storable(ty, v) && LiteralVerdictOf(check).Usable?
    ensures !BlurredPair(v, check.value)
  {
    hide Pow10, Blurred;
    var w := check.value;
    if v.Numeric? && w.Numeric? {
      FewerDigits(v.d.mantissa, ty.precision);
      FewerDigits(w.d.mantissa, check.inputType.precision);
      if v.d.scale < w.d.scale { ShortIsNeverBlurred(v.d, w.d); }
      if w.d.scale < v.d.scale { ShortIsNeverBlurred(w.d, v.d); }
    }
  }

  /** Past the guard the host test says exactly that the comparison is not FALSE. */
  lemma HostMeansNotFalse(ty: SqlType, check: Check, v: SqlValue)
    requires Declarable(ty) && Declarable(check.inputType) && Admissible(ty, check)
    requires Storable(ty, v) && LiteralVerdictOf(check).Usable?
    requires check.op.LikePrefix? ==> ty.TText? && check.value.Text?
    ensures HostSatisfies(v, check.op, check.value) <==> !CheckTruth(v, check.op, check.value).False?
  {
    hide Storable, LiteralVerdictOf, BlurredPair, HostOrder, SqlOrder, FilterHolds;
    if !v.Null? && !check.value.Null? {
      if check.op.LikePrefix? {
        TextColumnHoldsText(ty, v);
      } else {
        UsableIsNeverBlurred(ty, check, v);
        ComparableOrders(ty, check, v);
      }
    }
  }

  lemma TextColumnHoldsText(ty: SqlType, v: SqlValue)
    requires ty.TText? && Storable(ty, v) && !v.Null?
    ensures v.Text?
  {
  }

  /** The two evaluators agree on every row, for every operator the compiler takes. */
  lemma EvaluatorsAgree(columns: seq<TableColumn>, check: Check, idx: nat, row: seq<SqlValue>)
    requires idx < |columns| && idx < |row| && Storable(columns[idx].ty, row[idx])
    requires Declarable(columns[idx].ty) && Declarable(check.inputType)
    requires LiteralVerdictOf(check).Usable? && Compile(columns, check, idx).Some?
    ensures Selects(Compile(columns, check, idx).value, row) <==> !HostSatisfies(row[idx], check.op, check.value)
  {
    hide Selects, Storable, HostSatisfies, BlurredPair, LiteralVerdictOf;
    DeviceNegatesHostIff(columns, check, idx, row);
    UsableIsNeverBlurred(columns[idx].ty, check, row[idx]);
  }

  /** Without the guard they would not: 0.2 in a numeric(38,1) column and a 39-digit literal 0.16 pass
      the host's `=`, and the device selects the row.  The guard refuses that literal. */
  lemma GuardIsNeeded()
    ensures var wide := 16 * Pow10(37);
      && FitsI128(wide)
      && var columns := [TableColumn("n", TNumeric(38, 1))];
         var check := Check("n", Eq, Numeric(Decimal128(wide, 39)), TNumeric(38, 39));
         var v := Numeric(Decimal128(2, 1));
         && Storable(columns[0].ty, v) && Compile(columns, check, 0).Some?
         && Selects(Compile(columns, check, 0).value, [v]) && HostSatisfies(v, Eq, check.value)
         && LiteralVerdictOf(check) == FieldOverflow
  {
    hide Pow10, Compare, Compile, Selects, Blurred;
    LargePowers();
    var wide := 16 * Pow10(37);
    BlurWitness(wide);
    var columns := [TableColumn("n", TNumeric(38, 1))];
    var check := Check("n", Eq, Numeric(Decimal128(wide, 39)), TNumeric(38, 39));
    var row := [Numeric(Decimal128(2, 1))];
    CompiledSelectsViolations(columns, check, 0, row);
    DeviceNegatesHostIff(columns, check, 0, row);
  }

  // ---------------------------------------------------------------- resolving the operand

  /** Where the literal's type comes from.  Old log records did not say. */
  datatype Provenance = Legacy | Uncast | Known(ty: SqlType)

  datatype ResolveError = InvalidValue | InvalidText | UndefinedOperator

  datatype Resolution = Resolved(value: SqlValue, ty: SqlType) | Refused(error: ResolveError)

  function NaturalType(v: SqlValue): Option<SqlType>
  {
    match v
    case Int2(_) => Some(TInt2)
    case Int4(_) => Some(TInt4)
    case Int8(_) => Some(TInt8)
    case Numeric(d) => Some(TNumeric(NUMERIC_DEFAULT_PRECISION, d.scale))
    case Bool(_) => Some(TBool)
    case Date(_) => Some(TDate)
    case Timestamp(_) => Some(TTimestamp)
    case Uuid(_) => Some(TUuid)
    case Null => None
    case Text(_) => None
  }

  /** A legacy text or NULL counts as uncast, any other legacy value has its natural type. */
  function Normalized(v: SqlValue, p: Provenance): Provenance
  {
    if !p.Legacy? then p
    else match NaturalType(v)
      case Some(ty) => Known(ty)
      case None => Uncast
  }

  lemma NormalizedMeaning(v: SqlValue, p: Provenance)
    ensures var known := Normalized(v, p);
      && (!p.Legacy? ==> known == p)
      && (p.Legacy? && (v.Text? || v.Null?) ==> known == Uncast)
      && (p.Legacy? && !v.Text? && !v.Null? ==> known.Known? && ValueMatchesType(v, known.ty))
      && (p.Legacy? && v.Numeric? ==> known == Known(TNumeric(38, v.d.scale)))
  {
  }

  predicate IsIntegerType(ty: SqlType) { ty.TInt2? || ty.TInt4? || ty.TInt8? }

  /** A known integer against a numeric column becomes an exact decimal; nothing else changes. */
  function ResolveKnown(v: SqlValue, column: SqlType, operand: SqlType): SqlValue
  {
    if column.TNumeric? && IsIntegerType(operand) && NumericValue(v).Some? then Numeric(NumericValue(v).value) else v
  }

  function OperandType(p: Provenance, column: SqlType, literal: SqlValue): SqlType
  {
    if !p.Known? then column
    else if literal.Null? || ValueMatchesType(literal, p.ty) then p.ty
    else if NaturalType(literal).Some? then NaturalType(literal).value
    else column
  }

  /** `parsed` is what the text of an uncast literal reads as at the column's type, if it does. */
  function ResolveLiteral(v: SqlValue, p: Provenance, column: SqlType, parsed: Option<SqlValue>): Resolution
  {
    match p
    case Known(ty) =>
      if !v.Null? && !ValueMatchesType(v, ty) then Refused(InvalidValue)
      else if !TypesCompatible(column, ty) then Refused(UndefinedOperator)
      else
        var literal := ResolveKnown(v, column, ty);
        Resolved(literal, OperandType(p, column, literal))
    case _ =>
      if v.Null? then Resolved(v, column)
      else if !v.Text? then Refused(InvalidValue)
      else if parsed.None? then Refused(InvalidText)
      else Resolved(parsed.value, column)
  }

  function Resolve(v: SqlValue, p: Provenance, column: SqlType, op: FilterOp, parsed: Option<SqlValue>): Resolution
  {
    var r := ResolveLiteral(v, Normalized(v, p), column, parsed);
    if r.Resolved? && op.LikePrefix? && !(column.TText? && r.value.Text?) then Refused(InvalidValue) else r
  }

  /** The literal as written: an uncast text means what it reads as at the column's type. */
  ghost function Meant(v: SqlValue, p: Provenance, parsed: Option<SqlValue>): SqlValue
  {
    if Normalized(v, p).Uncast? && v.Text? && parsed.Some? then parsed.value else v
  }

  /** Why a literal cannot be an operand here, if it cannot. */
  ghost function Objection(v: SqlValue, p: Provenance, column: SqlType, op: FilterOp, parsed: Option<SqlValue>)
    : Option<ResolveError>
  {
    var known := Normalized(v, p);
    if known.Known? && !v.Null? && !ValueMatchesType(v, known.ty) then Some(InvalidValue)
    else if known.Known? && !TypesCompatible(column, known.ty) then Some(UndefinedOperator)
    else if !known.Known? && !v.Null? && !v.Text? then Some(InvalidValue)
    else if !known.Known? && v.Text? && parsed.None? then Some(InvalidText)
    else if op.LikePrefix? && !(column.TText? && Meant(v, p, parsed).Text?) then Some(InvalidValue)
    else None
  }

  /** Parsing at a type yields a value of that type. */
  ghost predicate ParsedAt(column: SqlType, parsed: Option<SqlValue>)
  {
    parsed.Some? ==> ValueMatchesType(parsed.value, column)
  }

  /** The type the literal is guarded by: the column's for an uncast literal, its own for one that came
      with a type, and numeric(38,0) for an integer against a numeric column. */
  ghost function WrittenType(v: SqlValue, p: Provenance, column: SqlType): SqlType
  {
    var known := Normalized(v, p);
    if !known.Known? then column
    else if column.TNumeric? && IsIntegerType(known.ty) && !v.Null? then TNumeric(38, 0)
    else known.ty
  }

  /** The written number has more digits than the type that guards it. */
  ghost predicate Overflows(v: SqlValue, p: Provenance, column: SqlType, parsed: Option<SqlValue>)
  {
    var ty, number := WrittenType(v, p, column), NumericValue(Meant(v, p, parsed));
    ty.TNumeric? && number.Some? && Abs(number.value.mantissa) >= Pow10(ty.precision)
  }

  /** What the resolved operand must be: it compares with every value as the literal that was written,
      carries the written type, and is admissible to the compiler. */
  ghost predicate StandsFor(r: Resolution, v: SqlValue, p: Provenance, column: SqlType, op: FilterOp,
                            parsed: Option<SqlValue>)
  {
    && r.Resolved? && SameOperand(r.value, Meant(v, p, parsed)) && r.ty == WrittenType(v, p, column)
    && (Normalized(v, p).Uncast? ==> r.value == Meant(v, p, parsed))
    && (op.LikePrefix? ==> column.TText? && r.value.Text?)
    && Declarable(r.ty) && TypesCompatible(column, r.ty) && (r.value.Null? || ValueMatchesType(r.value, r.ty))
  }

  lemma UncastMeaning(v: SqlValue, p: Provenance, column: SqlType, op: FilterOp, parsed: Option<SqlValue>)
    requires Declarable(column) && ParsedAt(column, parsed) && Normalized(v, p).Uncast?
    ensures var objection := Objection(v, p, column, op, parsed);
      objection.Some? ==> Resolve(v, p, column, op, parsed) == Refused(objection.value)
    ensures Objection(v, p, column, op, parsed).None? ==>
      var r := Resolve(v, p, column, op, parsed); r.Resolved? && StandsFor(r, v, p, column, op, parsed)
  {
    hide TypesCompatible, ValueMatchesType, SameOperand, Normalized;
    OwnType(column, Meant(v, p, parsed));
  }

  lemma TypedMeaning(v: SqlValue, p: Provenance, column: SqlType, op: FilterOp, parsed: Option<SqlValue>)
    requires Declarable(column) && Normalized(v, p).Known? && Declarable(Normalized(v, p).ty)
    ensures var objection := Objection(v, p, column, op, parsed);
      objection.Some? ==> Resolve(v, p, column, op, parsed) == Refused(objection.value)
    ensures Objection(v, p, column, op, parsed).None? ==>
      var r := Resolve(v, p, column, op, parsed); r.Resolved? && StandsFor(r, v, p, column, op, parsed)
  {
    hide ResolveLiteral, ResolveKnown, OperandType, TypesCompatible, ValueMatchesType, SameOperand, IsIntegerType,
         Normalized, NaturalType, NumericValue, Declarable;
    var known := Normalized(v, p);
    TypedLiteral(v, column, known.ty, parsed);
    if (v.Null? || ValueMatchesType(v, known.ty)) && TypesCompatible(column, known.ty) {
      KnownMeaning(v, column, known.ty);
    }
  }

  lemma TypedLiteral(v: SqlValue, column: SqlType, ty: SqlType, parsed: Option<SqlValue>)
    ensures var r := ResolveLiteral(v, Known(ty), column, parsed);
      && (!v.Null? && !ValueMatchesType(v, ty) ==> r == Refused(InvalidValue))
      && ((v.Null? || ValueMatchesType(v, ty)) && !TypesCompatible(column, ty) ==> r == Refused(UndefinedOperator))
      && ((v.Null? || ValueMatchesType(v, ty)) && TypesCompatible(column, ty) ==>
            var literal := ResolveKnown(v, column, ty);
            r == Resolved(literal, OperandType(Known(ty), column, literal)))
  {
    hide ResolveKnown, OperandType, TypesCompatible, ValueMatchesType;
  }

  /** A literal resolves exactly when there is no objection, and the error is the objection.  What it
      resolves to stands for what was written. */
  lemma ResolveMeaning(v: SqlValue, p: Provenance, column: SqlType, op: FilterOp, parsed: Option<SqlValue>)
    requires Declarable(column) && (p.Known? ==> Declarable(p.ty)) && ParsedAt(column, parsed)
    ensures var objection := Objection(v, p, column, op, parsed);
      objection.Some? ==> Resolve(v, p, column, op, parsed) == Refused(objection.value)
    ensures Objection(v, p, column, op, parsed).None? ==>
      var r := Resolve(v, p, column, op, parsed); r.Resolved? && StandsFor(r, v, p, column, op, parsed)
  {
    hide Resolve, Objection, StandsFor, Normalized, Declarable, ParsedAt;
    LegacyIsDeclarable(v, p);
    if Normalized(v, p).Known? {
      TypedMeaning(v, p, column, op, parsed);
    } else {
      UncastMeaning(v, p, column, op, parsed);
    }
  }

  /** The compiler admits such an operand, and the guard refuses it exactly when it overflows. */
  lemma StandInIsAdmissible(r: Resolution, v: SqlValue, p: Provenance, column: SqlType, op: FilterOp,
                            parsed: Option<SqlValue>, name: string)
    requires StandsFor(r, v, p, column, op, parsed)
    ensures r.Resolved? && Admissible(column, Check(name, op, r.value, r.ty)) && Declarable(r.ty)
    ensures r.ty == WrittenType(v, p, column) && SameOperand(r.value, Meant(v, p, parsed))
    ensures Normalized(v, p).Uncast? ==> r.value == Meant(v, p, parsed)
    ensures op.LikePrefix? ==> column.TText? && r.value.Text?
    ensures Overflows(v, p, column, parsed) ==> LiteralVerdictOf(Check(name, op, r.value, r.ty)) == FieldOverflow
    ensures !Overflows(v, p, column, parsed) ==> LiteralVerdictOf(Check(name, op, r.value, r.ty)) == Usable
  {
    hide Meant, WrittenType, Normalized, SameOperand, TypesCompatible, ValueMatchesType, Declarable, Overflows,
         LiteralVerdictOf;
    GuardSeesOverflow(v, p, column, parsed, Check(name, op, r.value, r.ty));
  }

  lemma LegacyIsDeclarable(v: SqlValue, p: Provenance)
    requires p.Known? ==> Declarable(p.ty)
    ensures !Normalized(v, p).Legacy? && (Normalized(v, p).Known? ==> Declarable(Normalized(v, p).ty))
  {
  }

  lemma KnownMeaning(v: SqlValue, column: SqlType, ty: SqlType)
    requires Declarable(column) && Declarable(ty) && TypesCompatible(column, ty)
    requires v.Null? || ValueMatchesType(v, ty)
    ensures var literal := ResolveKnown(v, column, ty); var operand := OperandType(Known(ty), column, literal);
      && SameOperand(literal, v) && (literal.Text? <==> v.Text?) && (literal.Null? <==> v.Null?)
      && operand == (if column.TNumeric? && IsIntegerType(ty) && !v.Null? then TNumeric(38, 0) else ty)
      && Declarable(operand) && TypesCompatible(column, operand)
      && (literal.Null? || ValueMatchesType(literal, operand))
  {
  }

  lemma OwnType(column: SqlType, v: SqlValue)
    ensures TypesCompatible(column, column) && SameOperand(v, v)
    ensures column.TText? && ValueMatchesType(v, column) ==> v.Text?
  {
  }

  lemma GuardSeesOverflow(v: SqlValue, p: Provenance, column: SqlType, parsed: Option<SqlValue>, check: Check)
    requires Admissible(column, check)
    requires check.inputType == WrittenType(v, p, column) && SameOperand(check.value, Meant(v, p, parsed))
    ensures Overflows(v, p, column, parsed) ==> LiteralVerdictOf(check) == FieldOverflow
    ensures !Overflows(v, p, column, parsed) ==> LiteralVerdictOf(check) == Usable
  {
    hide Pow10, Normalized, Meant, WrittenType;
  }

  /** Two literals every value compares with alike: the same value, or the same number. */
  ghost predicate SameOperand(a: SqlValue, b: SqlValue)
  {
    a == b || (NumericValue(a).Some? && NumericValue(a) == NumericValue(b))
  }

  lemma SameOperandSameTruth(x: SqlValue, op: FilterOp, a: SqlValue, b: SqlValue)
    requires SameOperand(a, b)
    ensures CheckTruth(x, op, a) == CheckTruth(x, op, b)
  {
    hide ExactOrder, CompareText;
  }

  // ---------------------------------------------------------------- ADD CHECK on the host

  function ColumnIndex(columns: seq<TableColumn>, name: string): (r: Option<nat>)
    ensures r.Some? ==> r.value < |columns| && columns[r.value].name == name
    ensures r.None? ==> forall i :: 0 <= i < |columns| ==> columns[i].name != name
  {
    if columns == [] then None
    else if columns[0].name == name then Some(0)
    else match ColumnIndex(columns[1..], name)
      case Some(i) => Some(i + 1)
      case None => None
  }

  /** Rows as wide as the table, holding what its columns can store. */
  ghost predicate RowsFit(columns: seq<TableColumn>, rows: seq<seq<SqlValue>>)
  {
    forall r :: 0 <= r < |rows| ==> RowFits(columns, rows[r])
  }

  ghost predicate RowFits(columns: seq<TableColumn>, row: seq<SqlValue>)
  {
    |row| == |columns| && forall i :: 0 <= i < |columns| ==> Storable(columns[i].ty, row[i])
  }

  ghost predicate AllDeclarable(columns: seq<TableColumn>)
  {
    forall i :: 0 <= i < |columns| ==> Declarable(columns[i].ty)
  }

  /** The exact comparison is FALSE on this row. */
  ghost predicate FalseOn(op: FilterOp, literal: SqlValue, idx: nat, row: seq<SqlValue>)
  {
    idx < |row| && CheckTruth(row[idx], op, literal).False?
  }

  ghost predicate AnyFalse(op: FilterOp, literal: SqlValue, idx: nat, rows: seq<seq<SqlValue>>)
  {
    exists r :: 0 <= r < |rows| && FalseOn(op, literal, idx, rows[r])
  }

  datatype AddOutcome =
    | Added(check: Check)
    | NoSuchColumn
    | OperandRefused(error: ResolveError)
    | LiteralRefused(verdict: LiteralVerdict)
    | RowViolates

  /** What ADD CHECK must answer for one column: the objection to the literal, the overflow, the
      violation by some existing row of the comparison with the literal as written, or acceptance. */
  ghost predicate Answers(outcome: AddOutcome, name: string, op: FilterOp, v: SqlValue, p: Provenance,
                          column: SqlType, parsed: Option<SqlValue>, idx: nat, rows: seq<seq<SqlValue>>)
  {
    var meant := Meant(v, p, parsed);
    match Objection(v, p, column, op, parsed)
    case Some(error) => outcome == OperandRefused(error)
    case None =>
      if Overflows(v, p, column, parsed) then outcome == LiteralRefused(FieldOverflow)
      else if AnyFalse(op, meant, idx, rows) then outcome == RowViolates
      else
        && outcome.Added?
        && outcome.check == Check(name, op, outcome.check.value, WrittenType(v, p, column))
        && SameOperand(outcome.check.value, meant)
        && (Normalized(v, p).Uncast? ==> outcome.check.value == meant)
  }

  /** The scan of the existing rows with the host test. */
  method AnyRowViolates(columns: seq<TableColumn>, check: Check, idx: nat, rows: seq<seq<SqlValue>>)
    returns (violated: bool)
    requires idx < |columns| && RowsFit(columns, rows) && LiteralVerdictOf(check).Usable?
    requires Declarable(columns[idx].ty) && Declarable(check.inputType) && Admissible(columns[idx].ty, check)
    requires check.op.LikePrefix? ==> columns[idx].ty.TText? && check.value.Text?
    ensures violated <==> AnyFalse(check.op, check.value, idx, rows)
  {
    hide LiteralVerdictOf, Storable, Admissible, CheckTruth, HostSatisfies;
    var k := 0;
    while k < |rows|
      invariant 0 <= k <= |rows|
      invariant forall j :: 0 <= j < k ==> !FalseOn(check.op, check.value, idx, rows[j])
    {
      assert RowFits(columns, rows[k]);
      HostMeansNotFalse(columns[idx].ty, check, rows[k][idx]);
      if !HostSatisfies(rows[k][idx], check.op, check.value) {
        assert FalseOn(check.op, check.value, idx, rows[k]);
        return true;
      }
      k := k + 1;
    }
    violated := false;
  }

  /** ADD CHECK: bind the literal, guard it, scan the rows. */
  method PreflightAddCheck(columns: seq<TableColumn>, name: string, op: FilterOp, v: SqlValue, p: Provenance,
                           parsed: Option<SqlValue>, rows: seq<seq<SqlValue>>)
    returns (outcome: AddOutcome)
    requires AllDeclarable(columns) && (p.Known? ==> Declarable(p.ty)) && RowsFit(columns, rows)
    requires ColumnIndex(columns, name).Some? ==> ParsedAt(columns[ColumnIndex(columns, name).value].ty, parsed)
    ensures outcome.NoSuchColumn? <==> forall i :: 0 <= i < |columns| ==> columns[i].name != name
    ensures ColumnIndex(columns, name).Some? ==>
      var idx := ColumnIndex(columns, name).value;
      Answers(outcome, name, op, v, p, columns[idx].ty, parsed, idx, rows)
  {
    hide Resolve, Answers, LiteralVerdictOf, Admissible, AnyFalse, RowsFit, ColumnIndex, Declarable, ParsedAt;
    hide Objection, Meant, Overflows, WrittenType, SameOperand, Normalized, StandsFor;
    var found := ColumnIndex(columns, name);
    if found.None? { return NoSuchColumn; }
    var idx := found.value;
    var ty := columns[idx].ty;
    ResolveMeaning(v, p, ty, op, parsed);
    var r := Resolve(v, p, ty, op, parsed);
    if r.Refused? {
      RefusalIsDue(name, op, v, p, ty, parsed, idx, rows, r.error);
      return OperandRefused(r.error);
    }
    StandInIsAdmissible(r, v, p, ty, op, parsed, name);
    var check := Check(name, op, r.value, r.ty);
    var verdict := ValidateLiteral(check);
    if !verdict.Usable? {
      OverflowIsDue(name, op, v, p, ty, parsed, idx, rows);
      return LiteralRefused(verdict);
    }
    var violated := AnyRowViolates(columns, check, idx, rows);
    ScanIsDue(name, op, v, p, ty, parsed, idx, rows, r.value);
    outcome := if violated then RowViolates else Added(check);
  }

  lemma RefusalIsDue(name: string, op: FilterOp, v: SqlValue, p: Provenance, column: SqlType,
                     parsed: Option<SqlValue>, idx: nat, rows: seq<seq<SqlValue>>, error: ResolveError)
    requires Objection(v, p, column, op, parsed) == Some(error)
    ensures Answers(OperandRefused(error), name, op, v, p, column, parsed, idx, rows)
  {
    hide Objection, Meant, Overflows, WrittenType, SameOperand, AnyFalse, Normalized;
  }

  lemma OverflowIsDue(name: string, op: FilterOp, v: SqlValue, p: Provenance, column: SqlType,
                      parsed: Option<SqlValue>, idx: nat, rows: seq<seq<SqlValue>>)
    requires Objection(v, p, column, op, parsed).None? && Overflows(v, p, column, parsed)
    ensures Answers(LiteralRefused(FieldOverflow), name, op, v, p, column, parsed, idx, rows)
  {
    hide Objection, Meant, Overflows, WrittenType, SameOperand, AnyFalse, Normalized;
  }

  lemma ScanIsDue(name: string, op: FilterOp, v: SqlValue, p: Provenance, column: SqlType,
                  parsed: Option<SqlValue>, idx: nat, rows: seq<seq<SqlValue>>, operand: SqlValue)
    requires Objection(v, p, column, op, parsed).None? && !Overflows(v, p, column, parsed)
    requires SameOperand(operand, Meant(v, p, parsed))
    requires Normalized(v, p).Uncast? ==> operand == Meant(v, p, parsed)
    ensures Answers(if AnyFalse(op, operand, idx, rows) then RowViolates
                    else Added(Check(name, op, operand, WrittenType(v, p, column))),
                    name, op, v, p, column, parsed, idx, rows)
  {
    hide Objection, Meant, Overflows, WrittenType, SameOperand, AnyFalse, Normalized;
    SameOperandSameRows(op, operand, Meant(v, p, parsed), idx, rows);
  }

  lemma SameOperandSameRows(op: FilterOp, a: SqlValue, b: SqlValue, idx: nat, rows: seq<seq<SqlValue>>)
    requires SameOperand(a, b)
    ensures AnyFalse(op, a, idx, rows) <==> AnyFalse(op, b, idx, rows)
  {
    hide CheckTruth, SameOperand;
    forall r | 0 <= r < |rows| ensures FalseOn(op, a, idx, rows[r]) <==> FalseOn(op, b, idx, rows[r]) {
      if idx < |rows[r]| { SameOperandSameTruth(rows[r][idx], op, a, b); }
    }
  }

  // ---------------------------------------------------------------- written rows on the device

  datatype DeviceOutcome =
    | Passed
    | BadLiteral(k: nat, verdict: LiteralVerdict)
    | Unavailable(k: nat)
    | Violated(k: nat)

  function CompiledFor(columns: seq<TableColumn>, check: Check): Option<ResidentExpr>
  {
    match ColumnIndex(columns, check.column)
    case Some(idx) => Compile(columns, check, idx)
    case None => None
  }

  /** The device can evaluate this check: its column exists, its operand is admissible, it is not LIKE. */
  ghost predicate Enforceable(columns: seq<TableColumn>, check: Check)
  {
    var found := ColumnIndex(columns, check.column);
    found.Some? && !Declined(columns, check, found.value)
  }

  ghost predicate BrokenBy(columns: seq<TableColumn>, check: Check, rows: seq<seq<SqlValue>>)
  {
    var found := ColumnIndex(columns, check.column);
    found.Some? && AnyFalse(check.op, check.value, found.value, rows)
  }

  lemma CompiledForMeaning(columns: seq<TableColumn>, check: Check, rows: seq<seq<SqlValue>>)
    requires RowsFit(columns, rows)
    ensures rows != [] ==> (CompiledFor(columns, check).Some? <==> Enforceable(columns, check))
    ensures CompiledFor(columns, check).Some? ==>
      (BrokenBy(columns, check, rows) <==>
       exists r :: 0 <= r < |rows| && Selects(CompiledFor(columns, check).value, rows[r]))
  {
    hide Compile, Selects, CheckTruth, Storable, Declined;
    var found := ColumnIndex(columns, check.column);
    if found.Some? {
      forall r | 0 <= r < |rows|
        ensures Compile(columns, check, found.value).None? <==> Declined(columns, check, found.value)
        ensures Compile(columns, check, found.value).Some? ==>
          (Selects(Compile(columns, check, found.value).value, rows[r]) <==>
           FalseOn(check.op, check.value, found.value, rows[r]))
      {
        assert RowFits(columns, rows[r]);
        CompiledSelectsViolations(columns, check, found.value, rows[r]);
      }
      if rows != [] { assert RowFits(columns, rows[0]); }
    }
  }

  /** Every literal is validated before any check is evaluated, then the checks are taken in order and
      the first one that cannot be evaluated or that some row breaks is reported. */
  method ValidateOnDevice(columns: seq<TableColumn>, checks: seq<Check>, images: seq<seq<SqlValue>>)
    returns (outcome: DeviceOutcome)
    requires RowsFit(columns, images)
    ensures outcome.Passed? <==>
      images == [] || forall k :: 0 <= k < |checks| ==>
        LiteralVerdictOf(checks[k]).Usable? && Enforceable(columns, checks[k]) && !BrokenBy(columns, checks[k], images)
    ensures outcome.BadLiteral? ==>
      && outcome.k < |checks| && outcome.verdict == LiteralVerdictOf(checks[outcome.k]) && !outcome.verdict.Usable?
      && forall j :: 0 <= j < outcome.k ==> LiteralVerdictOf(checks[j]).Usable?
    ensures outcome.Unavailable? || outcome.Violated? ==>
      && outcome.k < |checks|
      && (forall j :: 0 <= j < |checks| ==> LiteralVerdictOf(checks[j]).Usable?)
      && (forall j :: 0 <= j < outcome.k ==> Enforceable(columns, checks[j]) && !BrokenBy(columns, checks[j], images))
      && (outcome.Violated? <==> Enforceable(columns, checks[outcome.k]))
      && (outcome.Violated? ==> BrokenBy(columns, checks[outcome.k], images))
  {
    hide LiteralVerdictOf, Enforceable, BrokenBy, CompiledFor, Selects, RowFits;
    if images == [] || checks == [] { return Passed; }
    var k := 0;
    while k < |checks|
      invariant 0 <= k <= |checks|
      invariant forall j :: 0 <= j < k ==> LiteralVerdictOf(checks[j]).Usable?
    {
      var verdict := ValidateLiteral(checks[k]);
      if !verdict.Usable? { return BadLiteral(k, verdict); }
      k := k + 1;
    }
    k := 0;
    while k < |checks|
      invariant 0 <= k <= |checks|
      invariant forall j :: 0 <= j < k ==> Enforceable(columns, checks[j]) && !BrokenBy(columns, checks[j], images)
    {
      var violation := CompiledFor(columns, checks[k]);
      CompiledForMeaning(columns, checks[k], images);
      if violation.None? { return Unavailable(k); }
      if exists r :: 0 <= r < |images| && Selects(violation.value, images[r]) { return Violated(k); }
      k := k + 1;
    }
    outcome := Passed;
  }

  // ---------------------------------------------------------------- both sides together

  /** A check whose operand resolved is enforceable exactly when it is not LIKE, and past the guard the
      device selects exactly the rows that ADD CHECK's scan rejects. */
  lemma {:induction false} AddedCheckIsEnforcedAlike(columns: seq<TableColumn>, idx: nat, check: Check, v: SqlValue,
                                                     p: Provenance, parsed: Option<SqlValue>, row: seq<SqlValue>)
    requires ColumnIndex(columns, check.column) == Some(idx) && RowFits(columns, row)
    requires Declarable(columns[idx].ty) && (p.Known? ==> Declarable(p.ty)) && ParsedAt(columns[idx].ty, parsed)
    requires Resolve(v, p, columns[idx].ty, check.op, parsed) == Resolved(check.value, check.inputType)
    ensures CompiledFor(columns, check).Some? <==> !check.op.LikePrefix?
    ensures CompiledFor(columns, check).Some? && LiteralVerdictOf(check).Usable? ==>
      (Selects(CompiledFor(columns, check).value, row) <==> !HostSatisfies(row[idx], check.op, check.value))
  {
    hide Compile, Selects, HostSatisfies, Storable, Resolve, LiteralVerdictOf, Admissible, Meant, Overflows;
    ResolveMeaning(v, p, columns[idx].ty, check.op, parsed);
    StandInIsAdmissible(Resolved(check.value, check.inputType), v, p, columns[idx].ty, check.op, parsed, check.column);
    CompiledSelectsViolations(columns, check, idx, row);
    if CompiledFor(columns, check).Some? && LiteralVerdictOf(check).Usable? {
      EvaluatorsAgree(columns, check, idx, row);
    }
  }
}
