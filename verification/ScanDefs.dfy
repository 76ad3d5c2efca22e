// Rows, conditions and key ranges, as both scan executors see them. Columns hold 32-bit integers.
module ScanDefs {
  import opened KeyOrder
  import opened IxDefs

  const INT32_MIN := -0x8000_0000
  const INT32_MAX := 0x7fff_ffff

  type Row = seq<int>

  datatype CompOp = OP_EQ | OP_NE | OP_LT | OP_GT | OP_LE | OP_GE

  /** A literal, or another column of the same table. */
  datatype Operand = Literal(value: int) | Column(col: nat)

  datatype Condition = Condition(lhsCol: nat, op: CompOp, rhs: Operand)

  predicate Compares(a: int, op: CompOp, b: int) {
    match op
    case OP_EQ => a == b
    case OP_NE => a != b
    case OP_LT => a < b
    case OP_GT => a > b
    case OP_LE => a <= b
    case OP_GE => a >= b
  }

  /** What the operators mean for the order of an index on one column: equality, order, and the opposites of both. */
  lemma OperatorsByKey(a: int, b: int)
    ensures Compares(a, OP_EQ, b) <==> IntKey([a]) == IntKey([b])
    ensures Compares(a, OP_LT, b) <==> Less(IntKey([a]), IntKey([b]))
    ensures Compares(a, OP_GT, b) <==> Less(IntKey([b]), IntKey([a]))
    ensures Compares(a, OP_NE, b) <==> !Compares(a, OP_EQ, b)
    ensures Compares(a, OP_GE, b) <==> !Compares(a, OP_LT, b)
    ensures Compares(a, OP_LE, b) <==> !Compares(a, OP_GT, b)
  {
    assert IntKey([a])[0] == IntVal(a) && IntKey([b])[0] == IntVal(b);
  }

  /** The columns a condition names exist. */
  predicate Fits(cond: Condition, width: nat) {
    cond.lhsCol < width && (cond.rhs.Column? ==> cond.rhs.col < width)
  }

  predicate Holds(cond: Condition, row: Row)
    requires Fits(cond, |row|)
  {
    Compares(row[cond.lhsCol], cond.op, match cond.rhs case Literal(v) => v case Column(c) => row[c])
  }

  predicate AllFit(conds: seq<Condition>, width: nat) {
    forall i | 0 <= i < |conds| :: Fits(conds[i], width)
  }

  predicate Satisfies(row: Row, conds: seq<Condition>)
    requires AllFit(conds, |row|)
  {
    forall i | 0 <= i < |conds| :: Holds(conds[i], row)
  }

  /** eval_conds: the conditions one after the other, up to the first that fails. */
  method EvalConds(row: Row, conds: seq<Condition>) returns (b: bool)
    requires AllFit(conds, |row|)
    ensures b <==> Satisfies(row, conds)
  {
    for i := 0 to |conds|
      invariant forall j | 0 <= j < i :: Holds(conds[j], row)
    {
      if !Holds(conds[i], row) { return false; }
    }
    b := true;
  }

  /** So a condition says how the values it compares are ordered by an index. */
  lemma HoldsByKey(cond: Condition, row: Row)
    requires Fits(cond, |row|)
    ensures var x, y := KeyOf(row, [cond.lhsCol]), OperandKey(cond.rhs, row);
      match cond.op
      case OP_EQ => Holds(cond, row) <==> x == y
      case OP_NE => Holds(cond, row) <==> x != y
      case OP_LT => Holds(cond, row) <==> Less(x, y)
      case OP_GT => Holds(cond, row) <==> Less(y, x)
      case OP_LE => Holds(cond, row) <==> Less(x, y) || x == y
      case OP_GE => Holds(cond, row) <==> Less(y, x) || x == y
  {
    var a, b := row[cond.lhsCol], match cond.rhs case Literal(v) => v case Column(c) => row[c];
    assert KeyOf(row, [cond.lhsCol]) == IntKey([a]) && OperandKey(cond.rhs, row) == IntKey([b]);
    OperatorsByKey(a, b);
  }

  /** The right-hand side of a condition as a key. */
  function OperandKey(rhs: Operand, row: Row): Key
    requires rhs.Column? ==> rhs.col < |row|
  {
    match rhs case Literal(v) => IntKey([v]) case Column(c) => KeyOf(row, [c])
  }

  /** The rows of a table, all of one width and with 32-bit values. */
  predicate TableOk(table: map<Rid, Row>, width: nat) {
    forall r | r in table :: |table[r]| == width && forall i | 0 <= i < width :: INT32_MIN <= table[r][i] <= INT32_MAX
  }

  /** The key a row has in an index on the columns cols. */
  function KeyOf(row: Row, cols: seq<nat>): (k: Key)
    requires forall i | 0 <= i < |cols| :: cols[i] < |row|
    ensures |k| == |cols| && forall i | 0 <= i < |cols| :: k[i] == IntVal(row[cols[i]])
  {
    FirstColumns(row, cols, |cols|)
  }

  function FirstColumns(row: Row, cols: seq<nat>, n: nat): (k: Key)
    requires n <= |cols| && forall i | 0 <= i < |cols| :: cols[i] < |row|
    ensures |k| == n && forall i | 0 <= i < n :: k[i] == IntVal(row[cols[i]])
  {
    if n == 0 then [] else FirstColumns(row, cols, n - 1) + [IntVal(row[cols[n - 1]])]
  }

  /** The key a buffer of column values stands for. */
  function IntKey(buf: seq<int>): (k: Key)
    ensures |k| == |buf| && forall i | 0 <= i < |buf| :: k[i] == IntVal(buf[i])
  {
    FirstInts(buf, |buf|)
  }

  function FirstInts(buf: seq<int>, n: nat): (k: Key)
    requires n <= |buf|
    ensures |k| == n && forall i | 0 <= i < n :: k[i] == IntVal(buf[i])
  {
    if n == 0 then [] else FirstInts(buf, n - 1) + [IntVal(buf[n - 1])]
  }

  lemma {:induction false} LessAtDifference(a: Key, b: Key, n: nat)
    requires n <= |a| == |b| && forall i | 0 <= i < n :: a[i] == b[i]
    ensures n < |a| && ValLess(a[n], b[n]) ==> Less(a, b)
    decreases n
  {
    if n > 0 { LessAtDifference(a[1..], b[1..], n - 1); }
  }
}
