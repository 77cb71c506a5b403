/**
 Lowering `column OP literal` CHECK constraints to the expression that selects the violating rows:
 crates/engine/src/check_violation_expr.rs over the IR of crates/engine/src/engine_expr_ir.rs.

 A CHECK is satisfied by TRUE and by UNKNOWN (section 11.9 of ISO/IEC 9075-2), so a violating row is
 one on which the comparison is FALSE.
 */
module CheckViolation {
  import opened Primitives
  import opened Decimal
  import opened DecimalOrder

  const I16_MAX := 0x7FFF
  const I32_MAX := 0x7FFF_FFFF
  const I64_MAX := 0x7FFF_FFFF_FFFF_FFFF
  const DAY_US := 86_400_000_000

  type I16 = x: int | -I16_MAX - 1 <= x <= I16_MAX
  type I32 = x: int | -I32_MAX - 1 <= x <= I32_MAX
  type I64 = x: int | -I64_MAX - 1 <= x <= I64_MAX
  type Uuid128 = x: int | 0 <= x < 0x1_0000_0000_0000_0000_0000_0000_0000_0000

  datatype SqlType =
    | TInt2 | TInt4 | TInt8 | TNumeric(precision: U8, scale: U8)
    | TBool | TText | TDate | TTimestamp | TUuid

  datatype SqlValue =
    | Null
    | Int2(i2: I16) | Int4(i4: I32) | Int8(i8: I64) | Numeric(d: Decimal128)
    | Bool(b: bool) | Text(s: string) | Date(days: I32) | Timestamp(us: I64) | Uuid(u: Uuid128)

  datatype FilterOp = Eq | Lt | Lte | Gt | Gte | LikePrefix

  datatype TableColumn = TableColumn(name: string, ty: SqlType)

  datatype Check = Check(column: string, op: FilterOp, value: SqlValue, inputType: SqlType)

  // ---------------------------------------------------------------- the target language

  datatype BinaryOp = OpEq | OpNe | OpLt | OpLe | OpGt | OpGe | OpAnd

  /** Date and uuid literals travel as their canonical text, here identified with what they denote. */
  datatype TextPayload = Plain(text: string) | DateText(day: I32) | UuidText(uuid: Uuid128)

  datatype ResidentExpr =
    | Column(index: nat)
    | Int4Literal(int4: I32)
    | Int8Literal(int8: I64)
    | NumericLiteral(decimal: Decimal128)
    | TextLiteral(payload: TextPayload)
    | BoolLiteral(flag: bool)
    | IsNull(col: nat, isNotNull: bool)
    | Binary(op: BinaryOp, lhs: ResidentExpr, rhs: ResidentExpr)

  datatype Truth = True | False | Unknown

  function OfBool(b: bool): Truth { if b then True else False }

  function CompareText(a: string, b: string): Order
  {
    if a == [] || b == [] then Cmp(|a|, |b|)
    else if a[0] == b[0] then CompareText(a[1..], b[1..])
    else if a[0] < b[0] then Less else Greater
  }

  function CompareBool(a: bool, b: bool): Order
  {
    Cmp(if a then 1 else 0, if b then 1 else 0)
  }

  /** How a stored value relates to a literal of the target language, where that is defined. */
  function LiteralOrder(v: SqlValue, literal: ResidentExpr): Option<Order>
  {
    match (v, literal)
    case (Int2(x), Int4Literal(n)) => Some(Cmp(x, n))
    case (Int4(x), Int4Literal(n)) => Some(Cmp(x, n))
    case (Int8(x), Int8Literal(n)) => Some(Cmp(x, n))
    case (Timestamp(x), Int8Literal(n)) => Some(Cmp(x, n))
    case (Numeric(d), NumericLiteral(e)) => Some(ExactOrder(d, e))
    case (Bool(x), BoolLiteral(y)) => Some(CompareBool(x, y))
    case (Text(x), TextLiteral(Plain(y))) => Some(CompareText(x, y))
    case (Date(x), TextLiteral(DateText(y))) => Some(Cmp(x, y))
    case (Uuid(x), TextLiteral(UuidText(y))) => Some(Cmp(x, y))
    case _ => None
  }

  predicate OpHolds(op: BinaryOp, o: Order)
  {
    match op
    case OpEq => o.Equal?
    case OpNe => !o.Equal?
    case OpLt => o.Less?
    case OpLe => !o.Greater?
    case OpGt => o.Greater?
    case OpGe => !o.Less?
    case OpAnd => false
  }

  function And3(a: Truth, b: Truth): Truth
  {
    if a.False? || b.False? then False else if a.True? && b.True? then True else Unknown
  }

  /** Three-valued meaning of a predicate expression on one row. */
  function Eval(e: ResidentExpr, row: seq<SqlValue>): Truth
  {
    match e
    case IsNull(col, isNotNull) => if col < |row| then OfBool(row[col].Null? != isNotNull) else Unknown
    case Binary(OpAnd, a, b) => And3(Eval(a, row), Eval(b, row))
    case Binary(op, Column(col), literal) =>
      if col >= |row| || row[col].Null? then Unknown
      else (match LiteralOrder(row[col], literal)
            case Some(o) => OfBool(OpHolds(op, o))
            case None => Unknown)
    case _ => Unknown
  }

  /** The mask keeps exactly the rows on which the expression is TRUE. */
  predicate Selects(e: ResidentExpr, row: seq<SqlValue>) { Eval(e, row).True? }

  // ---------------------------------------------------------------- the compiler

  function ViolationThreshold(op: FilterOp, floor: LatticeValue, ceil: LatticeValue): Option<(BinaryOp, LatticeValue)>
  {
    match op
    case Eq => Some((OpNe, if floor != ceil then NonLattice else floor))
    case Lt => Some((OpGe, ceil))
    case Lte => Some((OpGt, floor))
    case Gt => Some((OpLe, floor))
    case Gte => Some((OpLt, ceil))
    case LikePrefix => None
  }

  function Complement(op: FilterOp): Option<BinaryOp>
  {
    match op
    case Eq => Some(OpNe)
    case Lt => Some(OpGe)
    case Lte => Some(OpGt)
    case Gt => Some(OpLe)
    case Gte => Some(OpLt)
    case LikePrefix => None
  }

  function ValidRows(idx: nat): ResidentExpr { IsNull(idx, true) }

  function AllZero(idx: nat): ResidentExpr { Binary(OpAnd, ValidRows(idx), IsNull(idx, false)) }

  /** How a lattice point is written as a literal for one physical column layout. */
  datatype Layout = AsInt4 | AsInt8 | AsNumeric(scale: U8) | AsDateText

  function Literal(layout: Layout, v: I128): Option<ResidentExpr>
  {
    match layout
    case AsInt4 => if -I32_MAX - 1 <= v <= I32_MAX then Some(Int4Literal(v)) else None
    case AsInt8 => if -I64_MAX - 1 <= v <= I64_MAX then Some(Int8Literal(v)) else None
    case AsNumeric(scale) => Some(NumericLiteral(Decimal128(v, scale)))
    case AsDateText => if -I32_MAX - 1 <= v <= I32_MAX then Some(TextLiteral(DateText(v))) else None
  }

  /** The comparison's constant value over the whole domain, when its threshold lies outside it. */
  function Folded(op: BinaryOp, threshold: LatticeValue, min: int, max: int): Option<bool>
  {
    match (op, threshold)
    case (OpNe, Below) => Some(true)
    case (OpNe, Above) => Some(true)
    case (OpGe, Below) => Some(true)
    case (OpGt, Below) => Some(true)
    case (OpLe, Above) => Some(true)
    case (OpLt, Above) => Some(true)
    case (OpGe, Above) => Some(false)
    case (OpGt, Above) => Some(false)
    case (OpLe, Below) => Some(false)
    case (OpLt, Below) => Some(false)
    case (OpNe, Value(v)) => if v < min || v > max then Some(true) else None
    case (OpGe, Value(v)) => if v <= min then Some(true) else if v > max then Some(false) else None
    case (OpGt, Value(v)) => if v < min then Some(true) else if v >= max then Some(false) else None
    case (OpLe, Value(v)) => if v < min then Some(false) else if v >= max then Some(true) else None
    case (OpLt, Value(v)) => if v <= min then Some(false) else if v > max then Some(true) else None
    case _ => None
  }

  function LatticeComparison(idx: nat, op: BinaryOp, threshold: LatticeValue, min: int, max: int, layout: Layout)
    : Option<ResidentExpr>
  {
    if threshold.NonLattice? then Some(ValidRows(idx))
    else match Folded(op, threshold, min, max)
      case Some(all) => Some(if all then ValidRows(idx) else AllZero(idx))
      case None =>
        if !threshold.Value? then None
        else match Literal(layout, threshold.v)
          case Some(literal) => Some(Binary(op, Column(idx), literal))
          case None => None
  }

  function CompileThreshold(idx: nat, op: FilterOp, pair: (LatticeValue, LatticeValue), min: int, max: int,
                            layout: Layout)
    : Option<ResidentExpr>
  {
    match ViolationThreshold(op, pair.0, pair.1)
    case Some((violation, threshold)) => LatticeComparison(idx, violation, threshold, min, max, layout)
    case None => None
  }

  function NumericValue(v: SqlValue): Option<Decimal128>
  {
    match v
    case Int2(x) => Some(Decimal128(x, 0))
    case Int4(x) => Some(Decimal128(x, 0))
    case Int8(x) => Some(Decimal128(x, 0))
    case Numeric(d) => Some(d)
    case _ => None
  }

  function IntegerFloorCeil(v: SqlValue): Option<(LatticeValue, LatticeValue)>
  {
    match v
    case Int2(x) => Some(Exact(x))
    case Int4(x) => Some(Exact(x))
    case Int8(x) => Some(Exact(x))
    case Numeric(d) => Some(DecimalFloorCeilAtScale(d, 0))
    case _ => None
  }

  function CompileInteger(idx: nat, op: FilterOp, v: SqlValue, min: int, max: int, layout: Layout): Option<ResidentExpr>
  {
    match IntegerFloorCeil(v)
    case Some(pair) => CompileThreshold(idx, op, pair, min, max, layout)
    case None => None
  }

  function CompileNumeric(idx: nat, op: FilterOp, v: SqlValue, precision: U8, scale: U8): Option<ResidentExpr>
  {
    match NumericValue(v)
    case None => None
    case Some(d) =>
      match CheckedPow10(precision)
      case None => None
      case Some(bound) =>
        CompileThreshold(idx, op, DecimalFloorCeilAtScale(d, scale), 1 - bound, bound - 1, AsNumeric(scale))
  }

  function TimestampDayFloorCeil(us: I64): (LatticeValue, LatticeValue)
  {
    var days := us / DAY_US;
    (Value(days), if us % DAY_US == 0 then Value(days) else Value(days + 1))
  }

  function SameType(idx: nat, op: FilterOp, literal: ResidentExpr): Option<ResidentExpr>
  {
    match Complement(op)
    case Some(violation) => Some(Binary(violation, Column(idx), literal))
    case None => None
  }

  predicate TypesCompatible(column: SqlType, operand: SqlType)
  {
    if column.TInt2? || column.TInt4? || column.TInt8? || column.TNumeric? then
      operand.TInt2? || operand.TInt4? || operand.TInt8? || operand.TNumeric?
    else if column.TDate? || column.TTimestamp? then operand.TDate? || operand.TTimestamp?
    else column == operand
  }

  predicate ValueMatchesType(v: SqlValue, ty: SqlType)
  {
    match v
    case Null => false
    case Int2(_) => ty.TInt2?
    case Int4(_) => ty.TInt4?
    case Int8(_) => ty.TInt8?
    case Numeric(_) => ty.TNumeric?
    case Bool(_) => ty.TBool?
    case Text(_) => ty.TText?
    case Date(_) => ty.TDate?
    case Timestamp(_) => ty.TTimestamp?
    case Uuid(_) => ty.TUuid?
  }

  predicate Admissible(column: SqlType, check: Check)
  {
    TypesCompatible(column, check.inputType) && (check.value.Null? || ValueMatchesType(check.value, check.inputType))
  }

  function CompileTyped(ty: SqlType, idx: nat, op: FilterOp, v: SqlValue): Option<ResidentExpr>
  {
    match ty
    case TInt2 => CompileInteger(idx, op, v, -I16_MAX - 1, I16_MAX, AsInt4)
    case TInt4 => CompileInteger(idx, op, v, -I32_MAX - 1, I32_MAX, AsInt4)
    case TInt8 => CompileInteger(idx, op, v, -I64_MAX - 1, I64_MAX, AsInt8)
    case TNumeric(precision, scale) => CompileNumeric(idx, op, v, precision, scale)
    case TBool => if v.Bool? then SameType(idx, op, BoolLiteral(v.b)) else None
    case TText => if v.Text? then SameType(idx, op, TextLiteral(Plain(v.s))) else None
    case TDate =>
      (match v
       case Date(days) => SameType(idx, op, TextLiteral(DateText(days)))
       case Timestamp(us) => CompileThreshold(idx, op, TimestampDayFloorCeil(us), -I32_MAX - 1, I32_MAX, AsDateText)
       case _ => None)
    case TTimestamp =>
      (match v
       case Timestamp(us) => SameType(idx, op, Int8Literal(us))
       case Date(days) => CompileThreshold(idx, op, Exact(days * DAY_US), -I64_MAX - 1, I64_MAX, AsInt8)
       case _ => None)
    case TUuid => if v.Uuid? then SameType(idx, op, TextLiteral(UuidText(v.u))) else None
  }

  /** `None` declines; otherwise the expression selects the rows that violate the check. */
  function Compile(columns: seq<TableColumn>, check: Check, idx: nat): Option<ResidentExpr>
  {
    if idx >= |columns| || columns[idx].name != check.column then None
    else if !Admissible(columns[idx].ty, check) then None
    else if check.value.Null? then Some(AllZero(idx))
    else CompileTyped(columns[idx].ty, idx, check.op, check.value)
  }

  // ---------------------------------------------------------------- the meaning of a check

  /** A value the column can store. */
  ghost predicate Storable(ty: SqlType, v: SqlValue)
  {
    || v.Null?
    || (ValueMatchesType(v, ty) && (v.Numeric? ==> v.d.scale == ty.scale && Abs(v.d.mantissa) < Pow10(ty.precision)))
  }

  /** The exact order of two comparable values: rationals, instants, or values of one type. */
  ghost function SqlOrder(a: SqlValue, b: SqlValue): Option<Order>
  {
    match (a, b)
    case (Bool(x), Bool(y)) => Some(CompareBool(x, y))
    case (Text(x), Text(y)) => Some(CompareText(x, y))
    case (Uuid(x), Uuid(y)) => Some(Cmp(x, y))
    case (Date(x), Date(y)) => Some(Cmp(x, y))
    case (Timestamp(x), Timestamp(y)) => Some(Cmp(x, y))
    case (Date(x), Timestamp(y)) => Some(Cmp(x * DAY_US, y))
    case (Timestamp(x), Date(y)) => Some(Cmp(x, y * DAY_US))
    case _ =>
      (match (NumericValue(a), NumericValue(b))
       case (Some(x), Some(y)) => Some(ExactOrder(x, y))
       case _ => None)
  }

  predicate FilterHolds(op: FilterOp, o: Order)
  {
    match op
    case Eq => o.Equal?
    case Lt => o.Less?
    case Lte => !o.Greater?
    case Gt => o.Greater?
    case Gte => !o.Less?
    case LikePrefix => false
  }

  /** The three-valued truth of `a OP b`; a LIKE pattern is held as its literal prefix. */
  ghost function CheckTruth(a: SqlValue, op: FilterOp, b: SqlValue): Truth
  {
    if a.Null? || b.Null? then Unknown
    else if op.LikePrefix? then if a.Text? && b.Text? then OfBool(b.s <= a.s) else Unknown
    else match SqlOrder(a, b)
      case Some(o) => OfBool(FilterHolds(op, o))
      case None => Unknown
  }

  /** Two types may meet in a CHECK exactly when values of theirs have an order. */
  lemma CompatibleIffOrdered(a: SqlType, b: SqlType, v: SqlValue, w: SqlValue)
    requires ValueMatchesType(v, a) && ValueMatchesType(w, b)
    ensures TypesCompatible(a, b) <==> SqlOrder(v, w).Some?
  {
    hide ExactOrder, CompareText;
  }

  // ---------------------------------------------------------------- thresholds on the lattice

  /** Comparing a lattice point with a threshold that may lie off the lattice or outside i128. */
  ghost predicate BeyondThreshold(op: BinaryOp, x: int, threshold: LatticeValue)
  {
    match threshold
    case Value(v) => OpHolds(op, Cmp(x, v))
    case Below => OpHolds(op, Greater)
    case Above => OpHolds(op, Less)
    case NonLattice => op.OpNe?
  }

  lemma AtMostFloor(x: int, f: int, num: int, den: int)
    requires den > 0 && IsFloor(f, num, den)
    ensures x <= f <==> x * den <= num
  {
    if x <= f { ScaleLe(x, f, den); } else { ScaleLe(f + 1, x, den); }
  }

  lemma AtLeastCeil(x: int, c: int, num: int, den: int)
    requires den > 0 && IsCeil(c, num, den)
    ensures x >= c <==> x * den >= num
  {
    if x >= c { ScaleLe(c, x, den); } else { ScaleLe(x, c - 1, den); }
  }

  lemma FloorBelowCeil(f: int, c: int, num: int, den: int)
    requires den > 0 && IsFloor(f, num, den) && IsCeil(c, num, den)
    ensures f <= c
  {
    if c < f { ScaleLe(c + 1, f, den); }
  }

  lemma OutsideI128(x: int, num: int, den: int)
    requires den > 0 && FitsI128(x)
    ensures num < I128_MIN * den ==> num < x * den
    ensures I128_MAX * den < num ==> x * den < num
  {
    ScaleLe(I128_MIN, x, den);
    ScaleLe(x, I128_MAX, den);
  }

  /** The violation threshold is passed exactly by the lattice points on which the check fails. */
  lemma ThresholdMeaning(op: FilterOp, pair: (LatticeValue, LatticeValue), num: int, den: int, x: int)
    requires den > 0 && FitsI128(x) && FloorCeilOf(pair, num, den) && !op.LikePrefix?
    ensures var t := ViolationThreshold(op, pair.0, pair.1).value;
      BeyondThreshold(t.0, x, t.1) <==> !FilterHolds(op, Cmp(x * den, num))
  {
    hide IsFloor, IsCeil;
    OutsideI128(x, num, den);
    if pair.0.Value? { AtMostFloor(x, pair.0.v, num, den); }
    if pair.1.Value? { AtLeastCeil(x, pair.1.v, num, den); }
    if pair.0.Value? && pair.1.Value? { FloorBelowCeil(pair.0.v, pair.1.v, num, den); }
  }

  lemma MasksMeaning(idx: nat, row: seq<SqlValue>)
    requires idx < |row|
    ensures Selects(ValidRows(idx), row) <==> !row[idx].Null?
    ensures !Selects(AllZero(idx), row)
  {
    assert Eval(AllZero(idx), row) == And3(Eval(ValidRows(idx), row), Eval(IsNull(idx, false), row));
  }

  predicate IsViolationOp(op: BinaryOp) { op.OpNe? || op.OpLt? || op.OpLe? || op.OpGt? || op.OpGe? }

  /** A fold is right for the whole domain, and what is not folded has its threshold inside it. */
  lemma FoldedMeaning(op: BinaryOp, threshold: LatticeValue, min: int, max: int)
    requires IsViolationOp(op) && !threshold.NonLattice? && min <= max
    ensures var folded := Folded(op, threshold, min, max);
      && (folded.Some? ==> forall x :: min <= x <= max ==> BeyondThreshold(op, x, threshold) == folded.value)
      && (folded.None? ==> threshold.Value? && min <= threshold.v <= max)
  {
  }

  /** The stored value `v` is lattice point `x`, and literals of this layout compare with it as integers. */
  ghost predicate LaidOut(layout: Layout, v: SqlValue, x: int, min: int, max: int)
  {
    && min <= x <= max
    && forall t: I128 :: min <= t <= max ==>
         Literal(layout, t).Some? && LiteralOrder(v, Literal(layout, t).value) == Some(Cmp(x, t))
  }

  /** Folding and emission preserve the comparison on every stored value and never select NULL. */
  lemma LatticeComparisonMeaning(idx: nat, op: BinaryOp, threshold: LatticeValue, min: int, max: int, layout: Layout,
                                 row: seq<SqlValue>, x: int)
    requires IsViolationOp(op) && idx < |row| && min <= max && (threshold.NonLattice? ==> op.OpNe?)
    requires forall t: I128 :: min <= t <= max ==> Literal(layout, t).Some?
    requires row[idx].Null? || LaidOut(layout, row[idx], x, min, max)
    ensures var e := LatticeComparison(idx, op, threshold, min, max, layout);
      e.Some? && (Selects(e.value, row) <==> !row[idx].Null? && BeyondThreshold(op, x, threshold))
  {
    hide Folded, BeyondThreshold, LiteralOrder, Literal, AllZero, ValidRows;
    MasksMeaning(idx, row);
    if threshold.NonLattice? {
      NonLatticeAlwaysDiffers(x);
    } else {
      FoldedMeaning(op, threshold, min, max);
      var folded := Folded(op, threshold, min, max);
      if folded.None? {
        var literal := Literal(layout, threshold.v).value;
        assert Eval(Binary(op, Column(idx), literal), row).True? <==>
          !row[idx].Null? && OpHolds(op, Cmp(x, threshold.v));
        PlainThreshold(op, x, threshold.v);
      }
    }
  }

  lemma NonLatticeAlwaysDiffers(x: int)
    ensures BeyondThreshold(OpNe, x, NonLattice)
  {
  }

  lemma PlainThreshold(op: BinaryOp, x: int, v: I128)
    ensures BeyondThreshold(op, x, Value(v)) == OpHolds(op, Cmp(x, v))
  {
  }

  /** Compiling through floor and ceiling selects exactly the rows on which the check is FALSE. */
  lemma CompileThresholdMeaning(idx: nat, op: FilterOp, pair: (LatticeValue, LatticeValue), min: int, max: int,
                                layout: Layout, row: seq<SqlValue>, x: int, num: int, den: int)
    requires !op.LikePrefix? && den > 0 && FloorCeilOf(pair, num, den)
    requires idx < |row| && I128_MIN <= min <= max <= I128_MAX
    requires forall t: I128 :: min <= t <= max ==> Literal(layout, t).Some?
    requires row[idx].Null? || LaidOut(layout, row[idx], x, min, max)
    ensures var e := CompileThreshold(idx, op, pair, min, max, layout);
      e.Some? && (Selects(e.value, row) <==> !row[idx].Null? && !FilterHolds(op, Cmp(x * den, num)))
  {
    hide LatticeComparison, BeyondThreshold, LiteralOrder, Literal, FilterHolds, IsFloor, IsCeil;
    var t := ViolationThreshold(op, pair.0, pair.1).value;
    if !row[idx].Null? { ThresholdMeaning(op, pair, num, den, x); }
    LatticeComparisonMeaning(idx, t.0, t.1, min, max, layout, row, x);
  }

  // ---------------------------------------------------------------- column by column

  /** The lattice point a stored value occupies. */
  function Stored(v: SqlValue): int
  {
    match v
    case Int2(x) => x
    case Int4(x) => x
    case Int8(x) => x
    case Numeric(d) => d.mantissa
    case Date(x) => x
    case Timestamp(x) => x
    case _ => 0
  }

  lemma IntegerLiteralIsExact(v: SqlValue)
    requires NumericValue(v).Some?
    ensures FloorCeilOf(IntegerFloorCeil(v).value, NumericValue(v).value.mantissa, Pow10(NumericValue(v).value.scale))
  {
    hide FloorCeilOf, DecimalFloorCeilAtScale;
    var d := NumericValue(v).value;
    assert Pow10(0) == 1 && d.mantissa * 1 == d.mantissa;
    if v.Numeric? { FloorCeilIsExact(d, 0); } else { ExactIsExact(d.mantissa, 1); }
  }

  lemma IntegerColumnMeaning(ty: SqlType, idx: nat, op: FilterOp, v: SqlValue, row: seq<SqlValue>)
    requires ty.TInt2? || ty.TInt4? || ty.TInt8?
    requires idx < |row| && Storable(ty, row[idx]) && NumericValue(v).Some? && !op.LikePrefix?
    ensures var e := CompileTyped(ty, idx, op, v);
      e.Some? && (Selects(e.value, row) <==> CheckTruth(row[idx], op, v).False?)
  {
    hide FloorCeilOf, CompileThreshold, FilterHolds, Eval, Pow10;
    var d := NumericValue(v).value;
    var pair := IntegerFloorCeil(v).value;
    var x := Stored(row[idx]);
    IntegerLiteralIsExact(v);
    IntegerOrder(x, d);
    var num, den := d.mantissa, Pow10(d.scale);
    match ty
    case TInt2 => CompileThresholdMeaning(idx, op, pair, -I16_MAX - 1, I16_MAX, AsInt4, row, x, num, den);
    case TInt4 => CompileThresholdMeaning(idx, op, pair, -I32_MAX - 1, I32_MAX, AsInt4, row, x, num, den);
    case TInt8 => CompileThresholdMeaning(idx, op, pair, -I64_MAX - 1, I64_MAX, AsInt8, row, x, num, den);
  }

  lemma IntegerOrder(x: I128, d: Decimal128)
    ensures ExactOrder(Decimal128(x, 0), d) == Cmp(x * Pow10(d.scale), d.mantissa)
  {
  }

  lemma NumericColumnMeaning(precision: U8, scale: U8, idx: nat, op: FilterOp, v: SqlValue, row: seq<SqlValue>)
    requires precision <= 38
    requires idx < |row| && Storable(TNumeric(precision, scale), row[idx]) && NumericValue(v).Some? && !op.LikePrefix?
    ensures var e := CompileNumeric(idx, op, v, precision, scale);
      e.Some? && (Selects(e.value, row) <==> CheckTruth(row[idx], op, v).False?)
  {
    hide FloorCeilOf, CompileThreshold, FilterHolds, Eval, Pow10;
    var d := NumericValue(v).value;
    var bound := CheckedPow10(precision).value;
    var x := Stored(row[idx]);
    FloorCeilIsExact(d, scale);
    if !row[idx].Null? {
      forall t: I128 | 1 - bound <= t <= bound - 1
        ensures LiteralOrder(row[idx], Literal(AsNumeric(scale), t).value) == Some(Cmp(x, t))
      {
        SameScaleOrder(x, t, scale);
      }
    }
    CompileThresholdMeaning(idx, op, DecimalFloorCeilAtScale(d, scale), 1 - bound, bound - 1, AsNumeric(scale), row, x,
                            d.mantissa * Pow10(scale), Pow10(d.scale));
  }

  lemma SameScaleOrder(x: I128, t: I128, scale: U8)
    ensures ExactOrder(Decimal128(x, scale), Decimal128(t, scale)) == Cmp(x, t)
  {
    CompareExactIff(Decimal128(x, scale), Decimal128(t, scale));
  }

  lemma TemporalColumnMeaning(ty: SqlType, idx: nat, op: FilterOp, v: SqlValue, row: seq<SqlValue>)
    requires (ty.TDate? && v.Timestamp?) || (ty.TTimestamp? && v.Date?)
    requires idx < |row| && Storable(ty, row[idx]) && !op.LikePrefix?
    ensures var e := CompileTyped(ty, idx, op, v);
      e.Some? && (Selects(e.value, row) <==> CheckTruth(row[idx], op, v).False?)
  {
    hide CompileThreshold, FilterHolds, Eval;
    var x := Stored(row[idx]);
    if ty.TDate? {
      CompileThresholdMeaning(idx, op, TimestampDayFloorCeil(v.us), -I32_MAX - 1, I32_MAX, AsDateText,
                              row, x, v.us, DAY_US);
    } else {
      CompileThresholdMeaning(idx, op, Exact(v.days * DAY_US), -I64_MAX - 1, I64_MAX, AsInt8,
                              row, x, v.days * DAY_US, 1);
    }
  }

  lemma SameTypeMeaning(ty: SqlType, idx: nat, op: FilterOp, v: SqlValue, row: seq<SqlValue>)
    requires (ty.TBool? && v.Bool?) || (ty.TText? && v.Text?) || (ty.TUuid? && v.Uuid?)
          || (ty.TDate? && v.Date?) || (ty.TTimestamp? && v.Timestamp?)
    requires idx < |row| && Storable(ty, row[idx]) && !op.LikePrefix?
    ensures var e := CompileTyped(ty, idx, op, v);
      e.Some? && (Selects(e.value, row) <==> CheckTruth(row[idx], op, v).False?)
  {
    hide CompareText;
  }

  // ---------------------------------------------------------------- main results

  ghost predicate Declined(columns: seq<TableColumn>, check: Check, idx: nat)
  {
    || idx >= |columns|
    || columns[idx].name != check.column
    || !Admissible(columns[idx].ty, check)
    || (!check.value.Null?
        && (check.op.LikePrefix? || (columns[idx].ty.TNumeric? && columns[idx].ty.precision > 38)))
  }

  /** The compiled expression selects a row exactly when the exact comparison is FALSE on it, so never
      on NULL; and the compiler declines in exactly the listed cases. */
  lemma CompiledSelectsViolations(columns: seq<TableColumn>, check: Check, idx: nat, row: seq<SqlValue>)
    requires idx < |columns| ==> idx < |row| && Storable(columns[idx].ty, row[idx])
    ensures Compile(columns, check, idx).None? <==> Declined(columns, check, idx)
    ensures Compile(columns, check, idx).Some? ==>
      (Selects(Compile(columns, check, idx).value, row) <==> CheckTruth(row[idx], check.op, check.value).False?)
  {
    hide CompileTyped, Selects, CheckTruth, Storable;
    if idx < |columns| && columns[idx].name == check.column && Admissible(columns[idx].ty, check) {
      var ty := columns[idx].ty;
      if check.value.Null? {
        MasksMeaning(idx, row);
        NullIsUnknown(row[idx], check.op);
      } else if check.op.LikePrefix? || (ty.TNumeric? && ty.precision > 38) {
        OutOfScopeDeclines(ty, idx, check.op, check.value);
      } else {
        TypedMeaning(ty, idx, check.op, check.value, row);
      }
    }
  }

  lemma NullIsUnknown(v: SqlValue, op: FilterOp)
    ensures CheckTruth(v, op, Null).Unknown?
  {
  }

  lemma OutOfScopeDeclines(ty: SqlType, idx: nat, op: FilterOp, v: SqlValue)
    requires op.LikePrefix? || (ty.TNumeric? && ty.precision > 38)
    ensures CompileTyped(ty, idx, op, v).None?
  {
  }

  lemma TypedMeaning(ty: SqlType, idx: nat, op: FilterOp, v: SqlValue, row: seq<SqlValue>)
    requires idx < |row| && Storable(ty, row[idx]) && !op.LikePrefix? && (ty.TNumeric? ==> ty.precision <= 38)
    requires exists input :: TypesCompatible(ty, input) && ValueMatchesType(v, input)
    ensures var e := CompileTyped(ty, idx, op, v);
      e.Some? && (Selects(e.value, row) <==> CheckTruth(row[idx], op, v).False?)
  {
    hide Selects, CheckTruth, Storable, CompileInteger, CompileThreshold, SameType;
    match ty
    case TNumeric(precision, scale) => NumericColumnMeaning(precision, scale, idx, op, v, row);
    case TInt2 => IntegerColumnMeaning(ty, idx, op, v, row);
    case TInt4 => IntegerColumnMeaning(ty, idx, op, v, row);
    case TInt8 => IntegerColumnMeaning(ty, idx, op, v, row);
    case TDate =>
      if v.Date? { SameTypeMeaning(ty, idx, op, v, row); } else { TemporalColumnMeaning(ty, idx, op, v, row); }
    case TTimestamp =>
      if v.Timestamp? { SameTypeMeaning(ty, idx, op, v, row); } else { TemporalColumnMeaning(ty, idx, op, v, row); }
    case _ => SameTypeMeaning(ty, idx, op, v, row);
  }

  /** A literal the compiler may emit against a column of this type. */
  ghost predicate LiteralInDomain(ty: SqlType, literal: ResidentExpr)
  {
    match ty
    case TInt2 => literal.Int4Literal? && -I16_MAX - 1 <= literal.int4 <= I16_MAX
    case TInt4 => literal.Int4Literal?
    case TInt8 => literal.Int8Literal?
    case TNumeric(precision, scale) =>
      literal.NumericLiteral? && literal.decimal.scale == scale && Abs(literal.decimal.mantissa) < Pow10(precision)
    case TBool => literal.BoolLiteral?
    case TText => literal.TextLiteral? && literal.payload.Plain?
    case TDate => literal.TextLiteral? && literal.payload.DateText?
    case TTimestamp => literal.Int8Literal?
    case TUuid => literal.TextLiteral? && literal.payload.UuidText?
  }

  /** The result is one of the two masks or one comparison of the column with a literal of its own
      domain. */
  lemma EmittedLiteralsStayInDomain(columns: seq<TableColumn>, check: Check, idx: nat)
    requires Compile(columns, check, idx).Some?
    ensures var e := Compile(columns, check, idx).value;
      || e == ValidRows(idx) || e == AllZero(idx)
      || (e.Binary? && IsViolationOp(e.op) && e.lhs == Column(idx) && LiteralInDomain(columns[idx].ty, e.rhs))
  {
    hide DecimalFloorCeilAtScale, Pow10, TimestampDayFloorCeil;
    var ty := columns[idx].ty;
    if !check.value.Null? && ty.TNumeric? {
      var d := NumericValue(check.value).value;
      var bound := CheckedPow10(ty.precision).value;
      ThresholdStaysInside(idx, check.op, DecimalFloorCeilAtScale(d, ty.scale), 1 - bound, bound - 1,
                           AsNumeric(ty.scale));
    } else if !check.value.Null? && ty.TInt2? {
      ThresholdStaysInside(idx, check.op, IntegerFloorCeil(check.value).value, -I16_MAX - 1, I16_MAX, AsInt4);
    }
  }

  lemma ThresholdStaysInside(idx: nat, op: FilterOp, pair: (LatticeValue, LatticeValue), min: int, max: int,
                             layout: Layout)
    requires min <= max && CompileThreshold(idx, op, pair, min, max, layout).Some?
    ensures var e := CompileThreshold(idx, op, pair, min, max, layout).value;
      || e == ValidRows(idx) || e == AllZero(idx)
      || (e.Binary? && IsViolationOp(e.op) && e.lhs == Column(idx)
          && exists t: I128 :: min <= t <= max && Literal(layout, t) == Some(e.rhs))
  {
    hide Folded;
    var t := ViolationThreshold(op, pair.0, pair.1).value;
    if !t.1.NonLattice? { FoldedMeaning(t.0, t.1, min, max); }
  }

  // ---------------------------------------------------------------- the host helper

  /** `compare_sql_values` on the operand pairs a CHECK admits. */
  function HostOrder(a: SqlValue, b: SqlValue): Option<Order>
  {
    match (a, b)
    case (Int2(x), Int2(y)) => Some(Cmp(x, y))
    case (Int2(x), Int4(y)) => Some(Cmp(x, y))
    case (Int2(x), Int8(y)) => Some(Cmp(x, y))
    case (Int4(x), Int2(y)) => Some(Cmp(x, y))
    case (Int4(x), Int4(y)) => Some(Cmp(x, y))
    case (Int4(x), Int8(y)) => Some(Cmp(x, y))
    case (Int8(x), Int2(y)) => Some(Cmp(x, y))
    case (Int8(x), Int4(y)) => Some(Cmp(x, y))
    case (Int8(x), Int8(y)) => Some(Cmp(x, y))
    case (Bool(x), Bool(y)) => Some(CompareBool(x, y))
    case (Text(x), Text(y)) => Some(CompareText(x, y))
    case (Uuid(x), Uuid(y)) => Some(Cmp(x, y))
    case (Date(x), Date(y)) => Some(Cmp(x, y))
    case (Timestamp(x), Timestamp(y)) => Some(Cmp(x, y))
    case (Date(x), Timestamp(y)) => Some(Cmp(x * DAY_US, y))
    case (Timestamp(x), Date(y)) => Some(Cmp(x, y * DAY_US))
    case _ =>
      (match (NumericValue(a), NumericValue(b))
       case (Some(x), Some(y)) => Some(Compare(x, y))
       case _ => None)
  }

  /** The host-side test of one value: NULL on either side satisfies the check. */
  predicate HostSatisfies(a: SqlValue, op: FilterOp, b: SqlValue)
  {
    || a.Null? || b.Null?
    || (if op.LikePrefix? then a.Text? && b.Text? && b.s <= a.s
        else HostOrder(a, b).Some? && FilterHolds(op, HostOrder(a, b).value))
  }

  ghost predicate BlurredPair(a: SqlValue, b: SqlValue)
  {
    a.Numeric? && b.Numeric?
    && ((a.d.scale < b.d.scale && Blurred(a.d, b.d)) || (b.d.scale < a.d.scale && Blurred(b.d, a.d)))
  }

  /** Whether an operator tells the true order of a blurred pair from equality.  The narrow operand is
      the larger in magnitude, so its sign says which side is greater. */
  predicate TellsFromEqual(op: FilterOp, a: Decimal128, b: Decimal128)
  {
    var greater := (a.scale < b.scale) == ((if a.scale < b.scale then a else b).mantissa > 0);
    op.Eq? || (if greater then op.Lte? || op.Gt? else op.Lt? || op.Gte?)
  }

  /** Device selection is the negation of the host test, for every operator, exactly when the host's
      comparison of the two decimals is not blurred or the operator cannot tell the difference. */
  lemma DeviceNegatesHostIff(columns: seq<TableColumn>, check: Check, idx: nat, row: seq<SqlValue>)
    requires idx < |columns| && idx < |row| && Storable(columns[idx].ty, row[idx])
    requires Compile(columns, check, idx).Some?
    ensures var v, w := row[idx], check.value;
      (Selects(Compile(columns, check, idx).value, row) <==> !HostSatisfies(v, check.op, w))
      <==> !(BlurredPair(v, w) && TellsFromEqual(check.op, v.d, w.d))
  {
    hide Compile, Selects, Blurred, Compare, ExactOrder, Admissible;
    CompiledSelectsViolations(columns, check, idx, row);
    var v, w := row[idx], check.value;
    if !v.Null? && !w.Null? {
      assert !check.op.LikePrefix?;
      ComparableOrders(columns[idx].ty, check, v);
      if BlurredPair(v, w) { BlurredPairOrder(v, w); }
    }
  }

  lemma BlurredPairOrder(a: SqlValue, b: SqlValue)
    requires BlurredPair(a, b)
    ensures SqlOrder(a, b) ==
      Some(if (a.d.scale < b.d.scale) == ((if a.d.scale < b.d.scale then a.d else b.d).mantissa > 0)
           then Greater else Less)
  {
    hide Blurred, Pow10;
    if a.d.scale < b.d.scale { BlurHidesTheLarger(a.d, b.d); } else { BlurHidesTheLarger(b.d, a.d); }
  }

  lemma ComparableOrders(ty: SqlType, check: Check, v: SqlValue)
    requires Admissible(ty, check) && Storable(ty, v) && !v.Null? && !check.value.Null?
    ensures HostOrder(v, check.value).Some? && SqlOrder(v, check.value).Some?
    ensures HostOrder(v, check.value) == SqlOrder(v, check.value) <==> !BlurredPair(v, check.value)
    ensures BlurredPair(v, check.value) ==> HostOrder(v, check.value) == Some(Equal)
  {
    hide Blurred, Compare, ExactOrder;
    var w := check.value;
    var a, b := NumericValue(v), NumericValue(w);
    if a.Some? && b.Some? {
      CompareExactIff(a.value, b.value);
      if v.Numeric? && !w.Numeric? && v.d.scale > 0 { WholeIsNeverBlurred(b.value, v.d); }
      if w.Numeric? && !v.Numeric? && w.d.scale > 0 { WholeIsNeverBlurred(a.value, w.d); }
      if !v.Numeric? && !w.Numeric? { SameScaleOrder(a.value.mantissa, b.value.mantissa, 0); }
    }
  }

  /** A whole number is never blurred: its integer part already differs. */
  lemma WholeIsNeverBlurred(whole: Decimal128, wide: Decimal128)
    requires whole.scale == 0 < wide.scale
    ensures !Blurred(whole, wide)
  {
    assert Abs(whole.mantissa) % Pow10(0) == 0;
  }
}
